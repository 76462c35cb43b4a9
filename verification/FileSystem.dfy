/** What the scanner can observe of the host: directory listings, metadata and name decoding. */
module FileSystem {
  import opened Prelude
  import opened Identity
  import opened Entries

  const NANOS_PER_SECOND := 1_000_000_000

  datatype FileType = Directory | RegularFile | Symlink | Special

  /** `fs::Metadata`; `modified` is in nanoseconds since the Unix epoch, absent when unsupported. */
  datatype Metadata = Metadata(fileType: FileType, len: u64, modified: Option<int>)

  /** Decoding that depends on the platform: lossy text and the media table. */
  datatype Host = Host(lossy: Name -> string, mediaKind: Path -> Option<MediaKind>)

  /** A name that a directory can list: not empty, without a slash, and not one of the two dots. */
  predicate Listable(name: Name) {
    name != [] && SLASH !in name && name != [DOT] && name != [DOT, DOT]
  }

  const DOT: byte := 0x2e

  /** How many of the last names of a path are those of real directories. */
  ghost function Chain(lstat: Path -> Option<Metadata>, p: Path): nat {
    if p != [] && Listable(p[|p| - 1]) && lstat(p).Some? && lstat(p).value.fileType.Directory?
    then 1 + Chain(lstat, p[..|p| - 1])
    else 0
  }

  lemma {:induction false} ChainIsShort(lstat: Path -> Option<Metadata>, p: Path)
    ensures Chain(lstat, p) <= |p|
  {
    if p != [] {
      ChainIsShort(lstat, p[..|p| - 1]);
    }
  }

  /**
   * The answers of the file-system calls during one scan. `None` is an error, both for a call and
   * for one item of a listing. Two things are finite, as they are on every real file system: how
   * many real directories, none of them a link, can follow one another at the end of a path, at
   * most `depth`; and the canonical paths, which are among `realPaths`. Paths themselves may be of
   * any length and wind through links any number of times. The scan never reads the two bounds.
   */
  datatype Files = Files(
    canonicalize: Path -> Option<Path>,
    stat: Path -> Option<Metadata>,
    lstat: Path -> Option<Metadata>,
    readDir: Path -> Option<seq<Option<Name>>>,
    depth: nat,
    realPaths: set<Path>)
  {
    ghost predicate Finite() {
      && (forall p :: Chain(lstat, p) <= depth)
      && (forall p :: canonicalize(p).Some? ==> canonicalize(p).value in realPaths)
    }
  }

  predicate IsHidden(name: Name) {
    name != [] && name[0] == 0x2e
  }

  /** `Path::file_stem` of a file name: the part before the last dot, unless that part is empty. */
  function FileStem(name: Name): Name {
    var i := LastDot(name, |name|);
    if i == 0 || i == |name| then name else name[..i]
  }

  /** Index of the last dot among the first `n` bytes, or the length of the name. */
  function LastDot(name: Name, n: nat): (i: nat)
    requires n <= |name|
    ensures i < |name| ==> i < n && name[i] == 0x2e && forall j :: i < j < n ==> name[j] != 0x2e
    ensures i >= |name| ==> i == |name| && forall j :: 0 <= j < n ==> name[j] != 0x2e
  {
    if n == 0 then |name| else if name[n - 1] == 0x2e then n - 1 else LastDot(name, n - 1)
  }

  /** Whole seconds since the epoch, zero when unknown or earlier. */
  function ModifiedSeconds(metadata: Metadata): u64 {
    if metadata.modified.Some? && metadata.modified.value >= 0 then
      Min(metadata.modified.value / NANOS_PER_SECOND, U64_MAX)
    else 0
  }

  /** `is_settled` with the clock reading made explicit. */
  predicate IsSettled(metadata: Metadata, minimumAge: nat, now: int) {
    || minimumAge == 0
    || (metadata.modified.Some?
        && metadata.modified.value <= now
        && now - metadata.modified.value >= minimumAge)
  }

  // --- The same in plain terms ---------------------------------------------------------------

  /** Without a minimum every file is old enough; otherwise its date must be known and lie that far back. */
  predicate OldEnough(m: Metadata, minimumAge: nat, now: int) {
    minimumAge > 0 ==> m.modified.Some? && now - m.modified.value >= minimumAge
  }

  /** The date in whole seconds since 1970, and zero when it is unknown or earlier. */
  predicate DatedAt(m: Metadata, seconds: u64) {
    if m.modified.Some? && m.modified.value >= 0 then
      && seconds * 1_000_000_000 <= m.modified.value
      && (m.modified.value < (seconds + 1) * 1_000_000_000 || seconds == U64_MAX)
    else seconds == 0
  }

  /** `stem` is all before the last dot of a name, or the whole name if it has no dot but a leading one. */
  predicate IsStem(name: Name, stem: Name) {
    || (stem == name && forall i :: 0 < i < |name| ==> name[i] != DOT)
    || (stem != [] && stem + [DOT] <= name && forall i :: |stem| < i < |name| ==> name[i] != DOT)
  }

  lemma DateMeans(m: Metadata)
    ensures DatedAt(m, ModifiedSeconds(m))
  {
  }

  lemma SettledMeans(m: Metadata, minimumAge: nat, now: int)
    ensures IsSettled(m, minimumAge, now) <==> OldEnough(m, minimumAge, now)
  {
  }

  lemma StemMeans(name: Name)
    ensures IsStem(name, FileStem(name))
  {
    var i := LastDot(name, |name|);
    hide LastDot;
    if 0 < i < |name| {
      assert name[..i] + [DOT] == name[..i + 1];
    }
  }
}
