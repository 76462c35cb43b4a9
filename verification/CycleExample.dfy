/**
 * A directory with a link back to the share above it: paths that wind through the link are
 * directories at every length, and the walk reads each of the two directories once all the same.
 */
module CycleExample {
  import opened Prelude
  import opened Identity
  import opened Entries
  import opened FileSystem
  import opened Traversal
  import opened Following
  import opened LinkOrder
  import opened AliasExample

  const FOLDER_NAME: Name := [0x64]
  const UP: Name := [0x75, 0x70]

  /** `/s` holds the directory `d`, and `d` holds the link `up` to `/s`. */
  function Wound(p: Path): Option<Path> {
    if p == [] || p == [SHARE] then Some(p)
    else
      var parent, name := Wound(p[..|p| - 1]), p[|p| - 1];
      if parent == Some([SHARE]) && name == FOLDER_NAME then Some([SHARE, FOLDER_NAME])
      else if parent == Some([SHARE, FOLDER_NAME]) && name == UP then Some([SHARE])
      else None
  }

  function NamesIn(p: Path): Option<seq<Option<Name>>> {
    if p == [] then Some([Some(SHARE)])
    else if p == [SHARE] then Some([Some(FOLDER_NAME)])
    else if p == [SHARE, FOLDER_NAME] then Some([Some(UP)])
    else None
  }

  function Cycle(): Files {
    Files(
      Wound,
      (p: Path) => if Wound(p).Some? then Some(FOLDER) else None,
      (p: Path) =>
        if Wound(p).None? then None
        else if p != [] && p[|p| - 1] == UP then Some(Metadata(Symlink, 0, Some(0)))
        else Some(FOLDER),
      (p: Path) => if Wound(p).Some? then NamesIn(Wound(p).value) else None,
      2,
      {[], [SHARE], [SHARE, FOLDER_NAME]})
  }

  lemma {:induction false} WoundIsOneOfThree(p: Path)
    ensures Wound(p).Some? ==> Wound(p).value in {[], [SHARE], [SHARE, FOLDER_NAME]}
    ensures Wound([SHARE, FOLDER_NAME]) == Some([SHARE, FOLDER_NAME])
    ensures Wound(p) == Some([]) ==> p == []
  {
    assert [SHARE, FOLDER_NAME][..1] == [SHARE];
  }

  lemma WoundStep(p: Path, name: Name)
    ensures Wound(p + [name]) ==
      if p + [name] == [SHARE] then Some([SHARE])
      else if Wound(p) == Some([SHARE]) && name == FOLDER_NAME then Some([SHARE, FOLDER_NAME])
      else if Wound(p) == Some([SHARE, FOLDER_NAME]) && name == UP then Some([SHARE])
      else None
  {
    assert (p + [name])[..|p|] == p && (p + [name])[|p|] == name;
  }

  /** The cyclic tree behaves like a file system, on paths that wind through the link as well. */
  lemma CycleIsConsistent(p: Path, name: Name)
    ensures var t := Cycle();
            && (t.canonicalize(p).Some? ==>
                  var q := t.canonicalize(p).value;
                  t.canonicalize(q) == Some(q) && t.stat(p) == t.stat(q) == t.lstat(q) && t.readDir(p) == t.readDir(q))
            && (t.canonicalize(p).None? ==> t.stat(p).None? && t.lstat(p).None? && t.readDir(p).None?)
            && (t.readDir(p).Some? <==> t.stat(p).Some? && t.stat(p).value.fileType.Directory?)
            && (t.canonicalize(p + [name]).Some? <==> t.readDir(p).Some? && Some(name) in t.readDir(p).value)
  {
    WoundIsOneOfThree(p);
    WoundStep(p, name);
    NamesAre(p, name);
    assert FOLDER_NAME != UP && SHARE != UP;
    if p + [name] == [SHARE] {
      assert |p + [name]| == |p| + 1 && (p + [name])[0] == name;
    } else if p == [] {
      assert [] + [name] == [name];
    }
    hide Wound, NamesIn;
  }

  lemma NamesAre(p: Path, name: Name)
    ensures NamesIn([]) == Some([Some(SHARE)]) && NamesIn([SHARE]) == Some([Some(FOLDER_NAME)])
    ensures NamesIn([SHARE, FOLDER_NAME]) == Some([Some(UP)])
    ensures Some(name) in [Some(SHARE)] <==> name == SHARE
    ensures Some(name) in [Some(FOLDER_NAME)] <==> name == FOLDER_NAME
    ensures Some(name) in [Some(UP)] <==> name == UP
    ensures Wound([]) == Some([]) && Wound([SHARE]) == Some([SHARE])
  {
  }

  // --- Finite, though paths are not ----------------------------------------------------------

  lemma {:induction false} ChainInCycle(p: Path)
    ensures Chain(Cycle().lstat, p) <= 2
    ensures Wound(p) == Some([SHARE]) ==> Chain(Cycle().lstat, p) <= 1
  {
    var lstat := Cycle().lstat;
    if p == [] || p == [SHARE] {
      ChainIsShort(lstat, p);
    } else {
      assert FOLDER_NAME != UP;
      ChainInCycle(p[..|p| - 1]);
    }
  }

  /** At most two real directories follow one another, and there are three canonical paths. */
  lemma CycleIsFinite()
    ensures Cycle().Finite()
  {
    forall p
      ensures Chain(Cycle().lstat, p) <= Cycle().depth
    {
      ChainInCycle(p);
    }
    forall p | Cycle().canonicalize(p).Some?
      ensures Cycle().canonicalize(p).value in Cycle().realPaths
    {
      WoundIsOneOfThree(p);
    }
  }

  /** Round the link `n` times. */
  function Round(n: nat): (p: Path)
    ensures |p| == 2 * n + 1
  {
    if n == 0 then [SHARE] else Round(n - 1) + [FOLDER_NAME] + [UP]
  }

  lemma {:induction false} RoundIsTheShare(n: nat)
    ensures Wound(Round(n)) == Some([SHARE])
  {
    hide Wound, NamesIn, Cycle;
    if n == 0 {
      NamesAre([], SHARE);
    } else {
      RoundIsTheShare(n - 1);
      OnceRound(Round(n - 1));
    }
  }

  lemma OnceRound(p: Path)
    requires |p| > 0 && Wound(p) == Some([SHARE])
    ensures Wound(p + [FOLDER_NAME] + [UP]) == Some([SHARE])
  {
    assert |p + [FOLDER_NAME]| > 1 && |p + [FOLDER_NAME] + [UP]| > 1;
    WoundStep(p, FOLDER_NAME);
    WoundStep(p + [FOLDER_NAME], UP);
    hide Wound;
  }

  /** There are paths of any length whose last name is that of a real directory. */
  lemma DirectoriesAtEveryLength(n: nat)
    ensures var p := Round(n) + [FOLDER_NAME];
            |p| == 2 * n + 2 && Cycle().lstat(p) == Some(FOLDER)
  {
    RoundIsTheShare(n);
    WoundStep(Round(n), FOLDER_NAME);
    assert |Round(n) + [FOLDER_NAME]| > 1 && FOLDER_NAME != UP;
  }

  // --- The walk ------------------------------------------------------------------------------

  function CycleWalk(host: Host, minimumAge: nat, now: nat): Walk {
    Walk(host, Cycle(), WithLinks(minimumAge, now), [Audio], [SHARE])
  }

  lemma CycleAnswers()
    ensures var t := Cycle();
            && t.readDir([SHARE]) == Some([Some(FOLDER_NAME)])
            && t.readDir([SHARE] + [FOLDER_NAME]) == Some([Some(UP)])
            && t.stat([SHARE] + [FOLDER_NAME]) == Some(FOLDER)
            && t.stat([SHARE] + [FOLDER_NAME] + [UP]) == Some(FOLDER)
            && t.canonicalize([SHARE]) == Some([SHARE])
            && t.canonicalize([SHARE] + [FOLDER_NAME]) == Some([SHARE, FOLDER_NAME])
            && t.canonicalize([SHARE] + [FOLDER_NAME] + [UP]) == Some([SHARE])
  {
    var d, u := [SHARE] + [FOLDER_NAME], [SHARE] + [FOLDER_NAME] + [UP];
    assert |d| == 2 && |u| == 3;
    NamesAre([], SHARE);
    WoundStep([SHARE], FOLDER_NAME);
    WoundStep(d, UP);
  }

  lemma NamesAreOrdinary()
    ensures Listable(FOLDER_NAME) && !IsHidden(FOLDER_NAME) && Listable(UP) && !IsHidden(UP)
    ensures [SHARE] != [SHARE, FOLDER_NAME]
  {
    assert SLASH !in FOLDER_NAME && SLASH !in UP;
    assert |[SHARE]| != |[SHARE, FOLDER_NAME]|;
  }

  lemma OneBelow(w: Walk, directory: Path, name: Name)
    requires w.files.readDir(directory) == Some([Some(name)]) && VerdictIn(w, directory, name).Descend?
    ensures Below(w, VisitOf(w, directory)) == [VisitOf(w, directory + [name])]
    ensures DirectVisit(w, VisitOf(w, directory)) == Found(multiset{VerdictIn(w, directory, name).entry}, multiset{})
  {
    hide VerdictIn, Walk.Id, Direct, Subdirectories, DirectItem, SubdirectoryAt;
    ListsOne(w, directory, w.Id('d', directory), Some(name));
    FolderAdds(w, directory, name);
  }

  lemma VisitsOfThree(w: Walk, root: Visit, a: Visit, b: Visit, c: Path, d: Path)
    requires w.files.Finite() && c != d && w.files.canonicalize(root.0) == w.files.canonicalize(b.0) == Some(c)
    requires w.files.canonicalize(a.0) == Some(d)
    requires Below(w, root) == [a] && Below(w, a) == [b]
    ensures FollowedVisits(w, {}, [root]) == [root, a]
  {
    hide FollowedVisits, Below;
    var none: Pending := [];
    var start, second, third: Pending := [root], [a], [b];
    assert start[..0] == none && second[..0] == none && third[..0] == none;
    FollowedOne(w, {}, start);
    assert none + second == second;
    FollowedOne(w, {} + {c}, second);
    assert none + third == third;
    FollowedOne(w, {} + {c} + {d}, third);
    NothingLeft(w, {} + {c} + {d});
  }

  /**
   * The walk ends: it reads the share and the directory, finds the link as a container below the
   * directory, and does not read it, because it leads back to the share.
   */
  lemma CycleIsReadOnce(host: Host, minimumAge: nat, now: nat)
    ensures var w := CycleWalk(host, minimumAge, now);
            && w.files.Finite()
            && RootVisits(w) == [VisitOf(w, [SHARE]), VisitOf(w, [SHARE] + [FOLDER_NAME])]
            && VerdictIn(w, [SHARE], FOLDER_NAME).Descend? && VerdictIn(w, [SHARE] + [FOLDER_NAME], UP).Descend?
            && Followed(w) == Found(multiset{VerdictIn(w, [SHARE], FOLDER_NAME).entry,
                                             VerdictIn(w, [SHARE] + [FOLDER_NAME], UP).entry}, multiset{})
  {
    CycleIsFinite();
    CycleAnswers();
    NamesAreOrdinary();
    var w := CycleWalk(host, minimumAge, now);
    hide Inspect, Walk.Id, Cycle, Listable, IsHidden, Files.Finite, FollowedVisits, Below, DirectVisit, DirectSum,
         Found.Plus;
    var d := [SHARE] + [FOLDER_NAME];
    DirectoryIsEntered(w, [SHARE], FOLDER_NAME, FOLDER);
    DirectoryIsEntered(w, d, UP, FOLDER);
    hide VerdictIn;
    OneBelow(w, [SHARE], FOLDER_NAME);
    OneBelow(w, d, UP);
    VisitsOfThree(w, VisitOf(w, [SHARE]), VisitOf(w, d), VisitOf(w, d + [UP]), [SHARE], [SHARE, FOLDER_NAME]);
    SumOfTwo(w, VisitOf(w, [SHARE]), VisitOf(w, d));
    TwoFound(VerdictIn(w, [SHARE], FOLDER_NAME).entry, VerdictIn(w, d, UP).entry);
  }
}
