/** Acceptance of the configured shares, and why accepted shares never expose a path twice. */
module ShareValidation {
  import opened Prelude
  import opened Identity
  import opened Entries
  import opened FileSystem
  import opened Traversal
  import opened Shares
  import opened CatalogSpec
  import opened CatalogBuilder
  import opened Reading
  import opened Scan

  /** `str::trim().is_empty()` and `str::to_lowercase`. */
  datatype Text = Text(blank: string -> bool, lower: string -> string)

  datatype ConfigError =
    | BlankName
    | DuplicateName(name: string)
    | NoMedia(name: string)
    | DuplicateMedia(name: string)
    | Unreadable(name: string)
    | NotDirectory(name: string)
    | Unresolvable(name: string)
    | Overlap(name: string, other: string)

  predicate Overlapping(a: Path, b: Path) {
    a <= b || b <= a
  }

  predicate Repeats(media: seq<MediaCategory>) {
    exists i, j :: 0 <= i < j < |media| && media[i] == media[j]
  }

  /** Whether a share is acceptable on its own. */
  predicate Sound(text: Text, files: Files, share: Share) {
    && !text.blank(share.name)
    && share.media != [] && !Repeats(share.media)
    && files.stat(share.path).Some? && files.stat(share.path).value.fileType.Directory?
    && files.canonicalize(share.path).Some?
  }

  /** Whether two shares can be exposed together. */
  predicate Compatible(text: Text, files: Files, a: Share, b: Share)
    requires files.canonicalize(a.path).Some? && files.canonicalize(b.path).Some?
  {
    && text.lower(a.name) != text.lower(b.name)
    && !Overlapping(files.canonicalize(a.path).value, files.canonicalize(b.path).value)
  }

  /** Every share is sound and every two are compatible. */
  ghost predicate Acceptable(text: Text, files: Files, shares: seq<Share>) {
    && (forall i :: 0 <= i < |shares| ==> Sound(text, files, shares[i]))
    && (forall i, j :: 0 <= i < j < |shares| ==> Compatible(text, files, shares[i], shares[j]))
  }

  /** An earlier share bears the same name, letter case apart. */
  ghost predicate NameTaken(text: Text, shares: seq<Share>, i: nat)
    requires i < |shares|
  {
    exists k :: 0 <= k < i && text.lower(shares[k].name) == text.lower(shares[i].name)
  }

  ghost predicate GoodName(text: Text, shares: seq<Share>, i: nat)
    requires i < |shares|
  {
    !text.blank(shares[i].name) && !NameTaken(text, shares, i)
  }

  predicate GoodMedia(share: Share) {
    share.media != [] && !Repeats(share.media)
  }

  predicate IsDirectory(files: Files, path: Path) {
    files.stat(path).Some? && files.stat(path).value.fileType.Directory?
  }

  /** The error names the first check that the share fails, and the first earlier share it overlaps. */
  ghost predicate Blames(text: Text, files: Files, shares: seq<Share>, i: nat, error: ConfigError)
    requires i < |shares|
  {
    var share := shares[i];
    match error
    case BlankName => text.blank(share.name)
    case DuplicateName(name) => name == share.name && !text.blank(name) && NameTaken(text, shares, i)
    case NoMedia(name) => name == share.name && GoodName(text, shares, i) && share.media == []
    case DuplicateMedia(name) => name == share.name && GoodName(text, shares, i) && Repeats(share.media)
    case Unreadable(name) =>
      name == share.name && GoodName(text, shares, i) && GoodMedia(share) && files.stat(share.path).None?
    case NotDirectory(name) =>
      && name == share.name && GoodName(text, shares, i) && GoodMedia(share)
      && files.stat(share.path).Some? && !IsDirectory(files, share.path)
    case Unresolvable(name) =>
      && name == share.name && GoodName(text, shares, i) && GoodMedia(share) && IsDirectory(files, share.path)
      && files.canonicalize(share.path).None?
    case Overlap(name, other) =>
      && name == share.name && GoodName(text, shares, i) && GoodMedia(share) && IsDirectory(files, share.path)
      && exists k :: FirstOverlap(files, shares, k, i) && shares[k].name == other
  }

  ghost predicate FirstOverlap(files: Files, shares: seq<Share>, k: int, i: nat)
    requires i < |shares|
  {
    0 <= k < i && RootsOverlap(files, shares[k], shares[i])
    && forall j :: 0 <= j < k ==> !RootsOverlap(files, shares[j], shares[i])
  }

  predicate RootsOverlap(files: Files, a: Share, b: Share) {
    var x, y := files.canonicalize(a.path), files.canonicalize(b.path);
    x.Some? && y.Some? && Overlapping(x.value, y.value)
  }

  function Distinct(media: seq<MediaCategory>): set<MediaCategory> {
    set c | c in media
  }

  lemma DistinctOfCons(media: seq<MediaCategory>)
    requires media != []
    ensures Distinct(media) == Distinct(media[1..]) + {media[0]}
    ensures Repeats(media) <==> media[0] in media[1..] || Repeats(media[1..])
  {
    var rest := media[1..];
    assert media == [media[0]] + rest;
    if media[0] in rest {
      var k :| 0 <= k < |rest| && rest[k] == media[0];
      assert media[0] == media[k + 1];
    }
    if Repeats(rest) {
      var i, j :| 0 <= i < j < |rest| && rest[i] == rest[j];
      assert media[i + 1] == media[j + 1];
    }
    if Repeats(media) {
      var i, j :| 0 <= i < j < |media| && media[i] == media[j];
      assert media[j] == rest[j - 1] && (i > 0 ==> media[i] == rest[i - 1]);
    }
  }

  /** A list repeats nothing exactly when it is as long as its set of elements. */
  lemma {:induction false} FewerDistinct(media: seq<MediaCategory>)
    ensures |Distinct(media)| <= |media|
    ensures |Distinct(media)| == |media| <==> !Repeats(media)
    decreases |media|
  {
    if media != [] {
      hide Repeats, Distinct;
      DistinctOfCons(media);
      FewerDistinct(media[1..]);
      DistinctHas(media[1..], media[0]);
      if media[0] in media[1..] {
        assert Distinct(media) == Distinct(media[1..]);
      }
    }
  }

  lemma DistinctHas(media: seq<MediaCategory>, c: MediaCategory)
    ensures c in Distinct(media) <==> c in media
  {
  }

  /**
   * The share loop of `Config::validate`: accumulates lower-cased names and canonical roots and
   * leaves at the first problem.
   */
  method ValidateShares(text: Text, files: Files, shares: seq<Share>) returns (r: Result<(), ConfigError>)
    ensures r.Ok? <==> Acceptable(text, files, shares)
    ensures r.Err? ==> exists i ::
      0 <= i < |shares| && Acceptable(text, files, shares[..i]) && Blames(text, files, shares, i, r.error)
  {
    hide Acceptable, Repeats, Distinct;
    NoneAcceptable(text, files, shares);
    var names: set<string> := {};
    var roots: seq<(string, Path)> := [];
    for i := 0 to |shares|
      invariant Acceptable(text, files, shares[..i])
      invariant |roots| == i
      invariant forall k :: 0 <= k < i ==>
        roots[k].0 == shares[k].name && files.canonicalize(shares[k].path) == Some(roots[k].1)
      invariant forall n :: n in names <==> exists k :: 0 <= k < i && text.lower(shares[k].name) == n
    {
      var share := shares[i];
      UnsoundIsFatal(text, files, shares, i);
      if text.blank(share.name) {
        return Err(BlankName);
      }
      if text.lower(share.name) in names {
        var k :| 0 <= k < i && text.lower(shares[k].name) == text.lower(share.name);
        NamesClash(text, files, shares, k, i);
        return Err(DuplicateName(share.name));
      }
      names := names + {text.lower(share.name)};
      if share.media == [] {
        return Err(NoMedia(share.name));
      }
      var unique := Distinct(share.media);
      FewerDistinct(share.media);
      if |unique| != |share.media| {
        return Err(DuplicateMedia(share.name));
      }
      var metadata := files.stat(share.path);
      if metadata.None? {
        return Err(Unreadable(share.name));
      }
      if !metadata.value.fileType.Directory? {
        return Err(NotDirectory(share.name));
      }
      var canonical := files.canonicalize(share.path);
      if canonical.None? {
        return Err(Unresolvable(share.name));
      }
      var root := canonical.value;
      var k := FindOverlap(roots, root);
      if k < |roots| {
        assert FirstOverlap(files, shares, k, i);
        RootsClash(text, files, shares, k, i);
        return Err(Overlap(share.name, roots[k].0));
      }
      roots := roots + [(share.name, root)];
      AcceptOneMore(text, files, shares, i);
    }
    assert shares[..|shares|] == shares;
    return Ok(());
  }

  /** The first root found to overlap, if any: `roots.iter().find`. */
  method FindOverlap(roots: seq<(string, Path)>, root: Path) returns (k: nat)
    ensures k <= |roots| && forall j :: 0 <= j < k ==> !Overlapping(roots[j].1, root)
    ensures k < |roots| ==> Overlapping(roots[k].1, root)
  {
    k := 0;
    while k < |roots| && !Overlapping(roots[k].1, root)
      invariant k <= |roots| && forall j :: 0 <= j < k ==> !Overlapping(roots[j].1, root)
    {
      k := k + 1;
    }
  }

  lemma NoneAcceptable(text: Text, files: Files, shares: seq<Share>)
    ensures Acceptable(text, files, shares[..0])
  {
  }

  lemma UnsoundIsFatal(text: Text, files: Files, shares: seq<Share>, i: nat)
    requires i < |shares|
    ensures !Sound(text, files, shares[i]) ==> !Acceptable(text, files, shares)
  {
  }

  lemma NamesClash(text: Text, files: Files, shares: seq<Share>, k: nat, i: nat)
    requires k < i < |shares| && text.lower(shares[k].name) == text.lower(shares[i].name)
    ensures !Acceptable(text, files, shares)
  {
  }

  lemma RootsClash(text: Text, files: Files, shares: seq<Share>, k: nat, i: nat)
    requires k < i < |shares| && RootsOverlap(files, shares[k], shares[i])
    ensures !Acceptable(text, files, shares)
  {
  }

  lemma AcceptOneMore(text: Text, files: Files, shares: seq<Share>, i: nat)
    requires i < |shares| && Acceptable(text, files, shares[..i]) && Sound(text, files, shares[i])
    requires forall k :: 0 <= k < i ==>
      files.canonicalize(shares[k].path).Some? && Compatible(text, files, shares[k], shares[i])
    ensures Acceptable(text, files, shares[..i + 1])
  {
    var longer := shares[..i + 1];
    forall k | 0 <= k < |longer|
      ensures Sound(text, files, longer[k])
    {
      if k < i {
        assert longer[k] == shares[..i][k];
      }
    }
    forall j, k | 0 <= j < k < |longer|
      ensures Compatible(text, files, longer[j], longer[k])
    {
      assert longer[j] == shares[..i][j];
      if k < i {
        assert longer[k] == shares[..i][k];
      }
    }
  }

  // --- Where an entry comes from -------------------------------------------------------------

  /** `e` was found below the root of share `i`, or is that root's own entry. */
  ghost predicate ComesFrom(host: Host, files: Files, options: ScanOptions, shares: seq<Share>, e: Entry, i: nat)
    requires files.Finite() && i < |shares|
  {
    var f := ExploreShare(host, files, options, shares[i]);
    f.Some? && e in f.value.entries
  }

  lemma {:induction false} EveryEntryHasAShare(host: Host, files: Files, options: ScanOptions, shares: seq<Share>,
                                               e: Entry)
    returns (i: nat)
    requires files.Finite()
    requires var f := ExploreShares(host, files, options, shares); f.Some? && e in f.value.entries
    ensures i < |shares| && ComesFrom(host, files, options, shares, e, i)
  {
    hide ExploreShare;
    var first := ExploreShare(host, files, options, shares[0]);
    if e in first.value.entries {
      i := 0;
    } else {
      var k := EveryEntryHasAShare(host, files, options, shares[1..], e);
      assert shares[1..][k] == shares[k + 1];
      i := k + 1;
    }
  }

  lemma BelowItsRoot(host: Host, files: Files, options: ScanOptions, shares: seq<Share>, e: Entry, i: nat)
    requires files.Finite() && i < |shares|
    requires ComesFrom(host, files, options, shares, e, i)
    ensures files.canonicalize(shares[i].path).Some?
    ensures var (w, entry) := ShareRoot(host, files, options, shares[i]).value;
            && files.canonicalize(shares[i].path).value == w.root == entry.path && w.root <= e.path
            && (e == entry || |w.root| < |e.path|)
  {
    var (w, entry) := ShareRoot(host, files, options, shares[i]).value;
    RootId(w);
    RootIsWalk(host, files, options, shares[i]);
    hide Contents;
    if e != entry {
      FoundBelowRoot(w, e);
    }
  }

  /**
   * With accepted shares and the file system unchanged since validation, no path appears in two
   * entries of a successful scan, whether links are followed or not.
   */
  lemma NoPathTwice(text: Text, host: Host, files: Files, options: ScanOptions, shares: seq<Share>,
                    r: Result<CatalogScan, ScanError>, a: string, b: string)
    requires files.Finite() && Acceptable(text, files, shares)
    requires Meets(host, files, options, shares, r) && r.Ok?
    requires var entries := r.value.catalog.entries; a in entries && b in entries && entries[a].path == entries[b].path
    ensures a == b
  {
    var entries := r.value.catalog.entries;
    var e, f := entries[a], entries[b];
    var found := ExploreShares(host, files, options, shares).value.entries;
    assert e in found && f in found && e.id == a && f.id == b;
    var i := EveryEntryHasAShare(host, files, options, shares, e);
    var j := EveryEntryHasAShare(host, files, options, shares, f);
    hide Meets, Indexes, IsCatalogOf, ExploreShares, ComesFrom, ShareRoot, Acceptable;
    BelowItsRoot(host, files, options, shares, e, i);
    BelowItsRoot(host, files, options, shares, f, j);
    SharedPathSharedRoot(text, files, shares, i, j, e.path);
    SameShareSameEntry(host, files, options, shares, i, e, f);
  }

  lemma SameShareSameEntry(host: Host, files: Files, options: ScanOptions, shares: seq<Share>, i: nat, e: Entry,
                           f: Entry)
    requires files.Finite() && i < |shares| && e.path == f.path
    requires ComesFrom(host, files, options, shares, e, i) && ComesFrom(host, files, options, shares, f, i)
    ensures e == f
  {
    BelowItsRoot(host, files, options, shares, e, i);
    BelowItsRoot(host, files, options, shares, f, i);
    ShareIdIs(host, files, options, shares[i]);
    RootIsWalk(host, files, options, shares[i]);
    hide Contents, ShareRoot;
    var (w, entry) := ShareRoot(host, files, options, shares[i]).value;
    if e != entry && f != entry {
      PathDeterminesEntry(w, e, f);
    }
  }

  lemma SharedPathSharedRoot(text: Text, files: Files, shares: seq<Share>, i: nat, j: nat, path: Path)
    requires Acceptable(text, files, shares) && i < |shares| && j < |shares|
    requires files.canonicalize(shares[i].path).Some? && files.canonicalize(shares[j].path).Some?
    requires files.canonicalize(shares[i].path).value <= path && files.canonicalize(shares[j].path).value <= path
    ensures i == j
  {
    var x, y := files.canonicalize(shares[i].path).value, files.canonicalize(shares[j].path).value;
    assert |x| <= |y| ==> x == y[..|x|];
    assert |y| <= |x| ==> y == x[..|y|];
    assert Overlapping(x, y);
    if i != j {
      AcceptedRootsAreDisjoint(text, files, shares, i, j);
      assert false;
    }
  }

  /** Any two accepted shares have roots of which neither contains the other. */
  lemma AcceptedRootsAreDisjoint(text: Text, files: Files, shares: seq<Share>, i: nat, j: nat)
    requires Acceptable(text, files, shares) && i < |shares| && j < |shares| && i != j
    ensures files.canonicalize(shares[i].path).Some? && files.canonicalize(shares[j].path).Some?
    ensures !Overlapping(files.canonicalize(shares[i].path).value, files.canonicalize(shares[j].path).value)
  {
    assert Sound(text, files, shares[i]) && Sound(text, files, shares[j]);
    assert Compatible(text, files, shares[if i < j then i else j], shares[if i < j then j else i]);
  }

  /**
   * A configuration is accepted exactly if every share has a name and at least one category, none
   * of them twice, and is a directory that resolves; and if no two have names that are alike but for
   * letter case, or roots of which one is above the other or the same.
   */
  lemma AcceptedExactly(text: Text, files: Files, shares: seq<Share>)
    ensures Acceptable(text, files, shares) <==>
      && (forall s :: s in shares ==>
            && !text.blank(s.name) && s.media != []
            && (forall i, j :: 0 <= i < j < |s.media| ==> s.media[i] != s.media[j])
            && files.stat(s.path).Some? && files.stat(s.path).value.fileType == Directory
            && files.canonicalize(s.path).Some?)
      && (forall i, j :: 0 <= i < j < |shares| ==>
            && text.lower(shares[i].name) != text.lower(shares[j].name)
            && var x, y := files.canonicalize(shares[i].path).value, files.canonicalize(shares[j].path).value;
               !(x <= y) && !(y <= x))
  {
    forall i | 0 <= i < |shares|
      ensures shares[i] in shares
    {
    }
  }
}
