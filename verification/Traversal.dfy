/**
 * What a walk of one share finds, independently of the stack that drives it. The multiset of
 * entries and the multiset of withheld files are defined by recursion over the directory tree.
 */
module Traversal {
  import opened Prelude
  import opened Identity
  import opened Entries
  import opened FileSystem

  datatype ScanOptions = ScanOptions(
    recursive: bool, followSymlinks: bool, includeHidden: bool, minimumAge: nat, now: int)

  datatype Share = Share(name: string, path: Path, media: seq<MediaCategory>)

  /** Everything that stays fixed while one share is walked. */
  datatype Walk = Walk(
    host: Host, files: Files, options: ScanOptions, media: seq<MediaCategory>, root: Path)
  {
    function RootHash(): u64 {
      StableOsHash(AbsoluteBytes(root))
    }

    function Id(kind: char, path: Path): string {
      ObjectId(kind, RootHash(), RelativeBytes(root, path))
    }
  }

  /** What becomes of one item of a directory listing. */
  datatype Verdict =
    | Skip
    | Withhold(entry: Entry)
    | Add(entry: Entry)
    | Descend(entry: Entry)

  /** The metadata a scan goes by: that of a link's target if links are followed. */
  function Observed(files: Files, options: ScanOptions, path: Path): Option<Metadata> {
    if options.followSymlinks then files.stat(path) else files.lstat(path)
  }

  /**
   * The loop body of the walk for one listed name, without its effects. `read_dir` never yields a
   * name that no directory can list, so such an item is as good as none.
   */
  function Inspect(w: Walk, directory: Path, parentId: string, item: Option<Name>): (v: Verdict)
    ensures !v.Skip? ==>
      && item.Some?
      && v.entry.path == directory + [item.value]
      && v.entry.parentId == parentId
      && |v.entry.id| == 33
      && v.entry.kind.Container? == v.Descend?
      && (v.Descend? ==> v.entry.size == 0)
      && v.entry.id == w.Id(if v.Descend? then 'd' else 'f', v.entry.path)
    ensures v.Descend? && !w.options.followSymlinks ==>
      Chain(w.files.lstat, v.entry.path) == 1 + Chain(w.files.lstat, directory)
  {
    match item
    case None => Skip
    case Some(name) =>
      if !Listable(name) || (!w.options.includeHidden && IsHidden(name)) then Skip
      else
        var path := directory + [name];
        assert path[..|path| - 1] == directory;
        match Observed(w.files, w.options, path)
        case None => Skip
        case Some(m) =>
          if m.fileType.Symlink? && !w.options.followSymlinks then Skip
          else if m.fileType.Directory? then
            if !w.options.recursive then Skip
            else Descend(Entry(w.Id('d', path), parentId, w.host.lossy(name), path, Container, 0,
                               ModifiedSeconds(m)))
          else if m.fileType.RegularFile? then
            match w.host.mediaKind(path)
            case None => Skip
            case Some(kind) =>
              if kind.category !in w.media then Skip
              else
                var entry := Entry(w.Id('f', path), parentId, w.host.lossy(FileStem(name)), path,
                                   Media(kind), m.len, ModifiedSeconds(m));
                if IsSettled(m, w.options.minimumAge, w.options.now) then Add(entry)
                else Withhold(entry)
          else Skip
  }

  /** The item has a name that directories can list and that the options do not hide. */
  predicate Considered(w: Walk, item: Option<Name>) {
    item.Some? && Listable(item.value) && (w.options.includeHidden || !([DOT] <= item.value))
  }

  /**
   * What becomes of an item, told from its metadata: directories are entered if the walk is
   * recursive; regular files of a wanted kind are added once they are old enough and withheld
   * until then; links that are not followed, other files and anything that cannot be inspected are
   * skipped. Containers are titled by name, media by the name without its extension.
   */
  lemma VerdictMeans(w: Walk, directory: Path, parentId: string, item: Option<Name>)
    ensures var v := Inspect(w, directory, parentId, item);
            && (item.None? ==> v.Skip?)
            && (item.Some? ==>
                  var path := directory + [item.value];
                  var m, kind := Observed(w.files, w.options, path), w.host.mediaKind(path);
                  var wanted := m.Some? && m.value.fileType.RegularFile? && kind.Some?
                    && kind.value.category in w.media;
                  && (v.Descend? <==>
                      Considered(w, item) && m.Some? && m.value.fileType.Directory? && w.options.recursive)
                  && (v.Add? <==>
                      Considered(w, item) && wanted && OldEnough(m.value, w.options.minimumAge, w.options.now))
                  && (v.Withhold? <==>
                      Considered(w, item) && wanted && !OldEnough(m.value, w.options.minimumAge, w.options.now))
                  && (v.Descend? ==> v.entry.title == w.host.lossy(item.value))
                  && (v.Add? || v.Withhold? ==>
                        && (exists stem :: IsStem(item.value, stem) && v.entry.title == w.host.lossy(stem))
                        && v.entry.kind == Media(kind.value) && v.entry.size == m.value.len)
                  && (!v.Skip? ==> DatedAt(m.value, v.entry.modifiedSeconds)))
  {
    if item.Some? {
      var m := Observed(w.files, w.options, directory + [item.value]);
      if m.Some? {
        DateMeans(m.value);
        SettledMeans(m.value, w.options.minimumAge, w.options.now);
      }
      StemMeans(item.value);
    }
    hide IsStem, DatedAt, OldEnough, ObjectId, StableOsHash, FileStem, ModifiedSeconds, IsSettled, Listable, Chain;
  }

  /** Entries found, and entries of files withheld because they are too young. */
  datatype Found = Found(entries: multiset<Entry>, withheld: multiset<Entry>)
  {
    function Plus(other: Found): Found {
      Found(entries + other.entries, withheld + other.withheld)
    }
  }

  lemma PlusSwap(a: Found, b: Found, c: Found)
    ensures a.Plus(b.Plus(c)) == b.Plus(a.Plus(c))
  {
    assert a.entries + (b.entries + c.entries) == b.entries + (a.entries + c.entries);
    assert a.withheld + (b.withheld + c.withheld) == b.withheld + (a.withheld + c.withheld);
  }

  const NOTHING := Found(multiset{}, multiset{})

  /** The walk follows no links and the tree is finite. */
  ghost predicate PlainTree(w: Walk) {
    !w.options.followSymlinks && w.files.Finite()
  }

  /** How many real directories may still follow below this one. */
  ghost function Height(w: Walk, directory: Path): nat {
    var chain := Chain(w.files.lstat, directory);
    if chain <= w.files.depth then w.files.depth - chain else 0
  }

  ghost function Explore(w: Walk, directory: Path, id: string): Found
    requires PlainTree(w)
    decreases Height(w, directory), 2, 0
  {
    match w.files.readDir(directory)
    case None => NOTHING
    case Some(items) => ExploreItems(w, directory, id, items)
  }

  ghost function ExploreItems(w: Walk, directory: Path, id: string, items: seq<Option<Name>>): Found
    requires PlainTree(w)
    decreases Height(w, directory), 1, |items|
  {
    if items == [] then NOTHING
    else ExploreItem(w, directory, id, items[0]).Plus(ExploreItems(w, directory, id, items[1..]))
  }

  ghost function ExploreItem(w: Walk, directory: Path, id: string, item: Option<Name>): Found
    requires PlainTree(w)
    decreases Height(w, directory), 0, 0
  {
    match Inspect(w, directory, id, item)
    case Skip => NOTHING
    case Withhold(entry) => Found(multiset{}, multiset{entry})
    case Add(entry) => Found(multiset{entry}, multiset{})
    case Descend(entry) =>
      Found(multiset{entry}, multiset{}).Plus(Explore(w, entry.path, entry.id))
  }

  // --- Independence of enumeration order -----------------------------------------------------

  /** Two observations of one file system that differ only in the order of directory listings. */
  ghost predicate SameUpToOrder(a: Files, b: Files) {
    && (forall p :: a.canonicalize(p) == b.canonicalize(p))
    && (forall p :: a.stat(p) == b.stat(p))
    && (forall p :: a.lstat(p) == b.lstat(p))
    && (forall p ::
          && a.readDir(p).Some? == b.readDir(p).Some?
          && (a.readDir(p).Some? ==> multiset(a.readDir(p).value) == multiset(b.readDir(p).value)))
  }

  lemma {:induction false} ExtractItem(w: Walk, directory: Path, id: string, items: seq<Option<Name>>, i: nat)
    requires PlainTree(w) && i < |items|
    ensures ExploreItems(w, directory, id, items)
         == ExploreItem(w, directory, id, items[i])
              .Plus(ExploreItems(w, directory, id, items[..i] + items[i + 1..]))
    decreases i
  {
    hide ExploreItem, Inspect;
    var others := items[..i] + items[i + 1..];
    if i == 0 {
      assert others == items[1..];
    } else {
      ExtractItem(w, directory, id, items[1..], i - 1);
      LeaveOutLater(items, i);
      PlusSwap(ExploreItem(w, directory, id, items[0]), ExploreItem(w, directory, id, items[i]),
               ExploreItems(w, directory, id, others[1..]));
    }
  }

  lemma {:induction false} ItemsPermuted(w: Walk, directory: Path, id: string,
                                         xs: seq<Option<Name>>, ys: seq<Option<Name>>)
    requires PlainTree(w) && multiset(xs) == multiset(ys)
    ensures ExploreItems(w, directory, id, xs) == ExploreItems(w, directory, id, ys)
    decreases |xs|
  {
    if xs == [] {
      assert |ys| == |multiset(ys)| == 0;
    } else {
      assert xs[0] in multiset(ys);
      var i :| 0 <= i < |ys| && ys[i] == xs[0];
      DropShared(xs, ys, i);
      ItemsPermuted(w, directory, id, xs[1..], ys[..i] + ys[i + 1..]);
      ExtractItem(w, directory, id, ys, i);
    }
  }

  /** Two walks alike in everything but listing order. */
  ghost predicate Reordered(v: Walk, w: Walk) {
    && v.host == w.host && v.options == w.options && v.media == w.media && v.root == w.root
    && SameUpToOrder(v.files, w.files)
    && v.files.Finite() && w.files.Finite()
  }

  /** The same, with links not followed. */
  ghost predicate Alike(v: Walk, w: Walk) {
    Reordered(v, w) && PlainTree(v) && PlainTree(w)
  }

  lemma {:induction false} ExploreOrderFree(v: Walk, w: Walk, directory: Path, id: string)
    requires Alike(v, w)
    ensures Explore(v, directory, id) == Explore(w, directory, id)
    decreases Height(v, directory), 2, 0
  {
    var xs, ys := v.files.readDir(directory), w.files.readDir(directory);
    if xs.Some? {
      ItemsOrderFree(v, w, directory, id, xs.value);
      ItemsPermuted(w, directory, id, xs.value, ys.value);
    }
  }

  lemma {:induction false} ItemsOrderFree(v: Walk, w: Walk, directory: Path, id: string, items: seq<Option<Name>>)
    requires Alike(v, w)
    ensures ExploreItems(v, directory, id, items) == ExploreItems(w, directory, id, items)
    decreases Height(v, directory), 1, |items|
  {
    if items != [] {
      VerdictOrderFree(v, w, directory, id, items[0]);
      hide Inspect, Walk.Id;
      var verdict := Inspect(v, directory, id, items[0]);
      if verdict.Descend? {
        ExploreOrderFree(v, w, verdict.entry.path, verdict.entry.id);
      }
      ItemsOrderFree(v, w, directory, id, items[1..]);
    }
  }

  lemma VerdictOrderFree(v: Walk, w: Walk, directory: Path, id: string, item: Option<Name>)
    requires Reordered(v, w)
    ensures Inspect(v, directory, id, item) == Inspect(w, directory, id, item)
  {
    hide ObjectId, StableOsHash, AbsoluteBytes, RelativeBytes, FileStem, ModifiedSeconds;
  }
}
