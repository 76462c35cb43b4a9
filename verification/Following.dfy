/**
 * The walk as its stack drives it: what each directory adds by itself, and, with links followed,
 * which directories are read and when the order of listings does not matter.
 */
module Following {
  import opened Prelude
  import opened Identity
  import opened FileSystem
  import opened Traversal
  import opened Visibility

  /** A directory to read, with the identifier of its container. */
  type Visit = (Path, string)
  type Pending = seq<Visit>

  // --- What one directory adds ---------------------------------------------------------------

  /** What one listed item adds by itself, without what lies below it. */
  ghost function DirectItem(w: Walk, directory: Path, id: string, item: Option<Name>): Found {
    match Inspect(w, directory, id, item)
    case Skip => NOTHING
    case Withhold(e) => Found(multiset{}, multiset{e})
    case Add(e) => Found(multiset{e}, multiset{})
    case Descend(e) => Found(multiset{e}, multiset{})
  }

  ghost function Direct(w: Walk, directory: Path, id: string, items: seq<Option<Name>>): Found {
    if items == [] then NOTHING
    else Direct(w, directory, id, items[..|items| - 1]).Plus(DirectItem(w, directory, id, items[|items| - 1]))
  }

  ghost function DirectVisit(w: Walk, visit: Visit): Found {
    if w.files.readDir(visit.0).None? then NOTHING
    else Direct(w, visit.0, visit.1, w.files.readDir(visit.0).value)
  }

  ghost function DirectSum(w: Walk, visits: Pending): Found {
    if visits == [] then NOTHING
    else DirectSum(w, visits[..|visits| - 1]).Plus(DirectVisit(w, visits[|visits| - 1]))
  }

  /** The directory to descend into behind one listed item, if there is one. */
  ghost function SubdirectoryAt(w: Walk, directory: Path, id: string, item: Option<Name>): Pending {
    match Inspect(w, directory, id, item)
    case Descend(e) => [(e.path, e.id)]
    case _ => []
  }

  ghost function Subdirectories(w: Walk, directory: Path, id: string, items: seq<Option<Name>>): Pending {
    if items == [] then []
    else Subdirectories(w, directory, id, items[..|items| - 1]) + SubdirectoryAt(w, directory, id, items[|items| - 1])
  }

  ghost function Below(w: Walk, visit: Visit): Pending {
    if w.files.readDir(visit.0).None? then []
    else Subdirectories(w, visit.0, visit.1, w.files.readDir(visit.0).value)
  }

  lemma PlusNothing(f: Found)
    ensures f.Plus(NOTHING) == f && NOTHING.Plus(f) == f
  {
    assert f.entries + multiset{} == f.entries && f.withheld + multiset{} == f.withheld;
    assert multiset{} + f.entries == f.entries && multiset{} + f.withheld == f.withheld;
  }

  lemma PlusAssociates(a: Found, b: Found, c: Found)
    ensures a.Plus(b).Plus(c) == a.Plus(b.Plus(c))
  {
    assert a.entries + b.entries + c.entries == a.entries + (b.entries + c.entries);
    assert a.withheld + b.withheld + c.withheld == a.withheld + (b.withheld + c.withheld);
  }

  lemma {:induction false} DirectSumConcat(w: Walk, a: Pending, b: Pending)
    ensures DirectSum(w, a + b) == DirectSum(w, a).Plus(DirectSum(w, b))
    decreases |b|
  {
    hide DirectVisit, Found.Plus;
    if b == [] {
      assert a + b == a;
      PlusNothing(DirectSum(w, a));
    } else {
      var front, last := b[..|b| - 1], b[|b| - 1];
      assert (a + b)[..|a + b| - 1] == a + front;
      DirectSumConcat(w, a, front);
      PlusAssociates(DirectSum(w, a), DirectSum(w, front), DirectVisit(w, last));
    }
  }

  lemma DirectSumOne(w: Walk, visits: Pending, top: Visit)
    ensures DirectSum(w, visits + [top]) == DirectSum(w, visits).Plus(DirectVisit(w, top))
  {
    assert (visits + [top])[..|visits|] == visits;
  }

  // --- Which directories are read when links are followed --------------------------------------

  lemma FewerLeft(all: set<Path>, visited: set<Path>, p: Path)
    requires p in all && p !in visited
    ensures |all - (visited + {p})| < |all - visited|
  {
    assert all - visited == (all - (visited + {p})) + {p};
  }

  /**
   * The directories read with links followed, in order. `visited` are the canonical paths read
   * before, `pending` is the stack. It ends because every directory read uses up a canonical path.
   */
  ghost function FollowedVisits(w: Walk, visited: set<Path>, pending: Pending): Pending
    requires w.files.Finite()
    decreases |w.files.realPaths - visited|, |pending|
  {
    if pending == [] then []
    else
      var top, rest := pending[|pending| - 1], pending[..|pending| - 1];
      var target := w.files.canonicalize(top.0);
      if target.None? || target.value in visited then FollowedVisits(w, visited, rest)
      else
        FewerLeft(w.files.realPaths, visited, target.value);
        [top] + FollowedVisits(w, visited + {target.value}, rest + Below(w, top))
  }

  /** One round: the top of the stack is dropped, or read and replaced by the directories in it. */
  lemma FollowedOne(w: Walk, visited: set<Path>, pending: Pending)
    requires w.files.Finite() && pending != []
    ensures var (top, rest) := (pending[|pending| - 1], pending[..|pending| - 1]);
            var target := w.files.canonicalize(top.0);
            FollowedVisits(w, visited, pending)
              == (if target.None? || target.value in visited then FollowedVisits(w, visited, rest)
                  else [top] + FollowedVisits(w, visited + {target.value}, rest + Below(w, top)))
  {
    hide Below;
  }

  /** `x` leads to the same directory as something read, or to no directory. */
  ghost predicate Covered(w: Walk, visited: set<Path>, visits: Pending, x: Visit) {
    var target := w.files.canonicalize(x.0);
    target.None? || target.value in visited || exists v :: v in visits && w.files.canonicalize(v.0) == target
  }

  /** All of `visits` lead to directories, none of them seen before and no two of them the same. */
  ghost predicate AllDifferent(w: Walk, visited: set<Path>, visits: Pending) {
    && (forall v :: v in visits ==> w.files.canonicalize(v.0).Some? && w.files.canonicalize(v.0).value !in visited)
    && (forall i, j :: 0 <= i < j < |visits| ==> w.files.canonicalize(visits[i].0) != w.files.canonicalize(visits[j].0))
  }

  /** Even with cyclic links, no directory is read under two names, or twice. */
  lemma {:induction false} EachReadOnce(w: Walk, visited: set<Path>, pending: Pending)
    requires w.files.Finite()
    ensures AllDifferent(w, visited, FollowedVisits(w, visited, pending))
    decreases |w.files.realPaths - visited|, |pending|
  {
    hide Below;
    if pending != [] {
      var top, rest := pending[|pending| - 1], pending[..|pending| - 1];
      var target := w.files.canonicalize(top.0);
      if target.None? || target.value in visited {
        EachReadOnce(w, visited, rest);
        assert FollowedVisits(w, visited, pending) == FollowedVisits(w, visited, rest);
      } else {
        FewerLeft(w.files.realPaths, visited, target.value);
        EachReadOnce(w, visited + {target.value}, rest + Below(w, top));
        var others := FollowedVisits(w, visited + {target.value}, rest + Below(w, top));
        assert FollowedVisits(w, visited, pending) == [top] + others;
        OneMoreDifferent(w, visited, top, others);
      }
    }
  }

  lemma OneMoreDifferent(w: Walk, visited: set<Path>, top: Visit, others: Pending)
    requires w.files.canonicalize(top.0).Some? && w.files.canonicalize(top.0).value !in visited
    requires AllDifferent(w, visited + {w.files.canonicalize(top.0).value}, others)
    ensures AllDifferent(w, visited, [top] + others)
  {
    var visits := [top] + others;
    forall i, j | 0 <= i < j < |visits|
      ensures w.files.canonicalize(visits[i].0) != w.files.canonicalize(visits[j].0)
    {
      assert visits[j] in others;
      if i > 0 {
        assert visits[i] == others[i - 1] && visits[j] == others[j - 1];
      }
    }
  }

  /** Only directories from the stack and directories found in those read are read. */
  lemma {:induction false} ReadOnlyFound(w: Walk, visited: set<Path>, pending: Pending, x: Visit)
    requires w.files.Finite() && x in FollowedVisits(w, visited, pending)
    ensures x in pending || exists y :: y in FollowedVisits(w, visited, pending) && x in Below(w, y)
    decreases |w.files.realPaths - visited|, |pending|
  {
    hide Below;
    var top, rest := pending[|pending| - 1], pending[..|pending| - 1];
    assert pending == rest + [top];
    var target := w.files.canonicalize(top.0);
    if target.None? || target.value in visited {
      ReadOnlyFound(w, visited, rest, x);
    } else if x != top {
      FewerLeft(w.files.realPaths, visited, target.value);
      var others := FollowedVisits(w, visited + {target.value}, rest + Below(w, top));
      assert FollowedVisits(w, visited, pending) == [top] + others;
      ReadOnlyFound(w, visited + {target.value}, rest + Below(w, top), x);
    }
  }

  /** Every directory from the stack or found in one read is read under some name, or leads nowhere. */
  lemma {:induction false} EverythingCovered(w: Walk, visited: set<Path>, pending: Pending, x: Visit)
    requires w.files.Finite()
    requires x in pending || exists y :: y in FollowedVisits(w, visited, pending) && x in Below(w, y)
    ensures Covered(w, visited, FollowedVisits(w, visited, pending), x)
    decreases |w.files.realPaths - visited|, |pending|
  {
    hide Below;
    if pending != [] {
      var top, rest := pending[|pending| - 1], pending[..|pending| - 1];
      assert pending == rest + [top];
      var target := w.files.canonicalize(top.0);
      if target.None? || target.value in visited {
        if x in rest || exists y :: y in FollowedVisits(w, visited, rest) && x in Below(w, y) {
          EverythingCovered(w, visited, rest, x);
        }
      } else {
        FewerLeft(w.files.realPaths, visited, target.value);
        var seen := visited + {target.value};
        var others := FollowedVisits(w, seen, rest + Below(w, top));
        assert FollowedVisits(w, visited, pending) == [top] + others;
        assert top in [top] + others;
        if x in rest + Below(w, top) || exists y :: y in others && x in Below(w, y) {
          EverythingCovered(w, seen, rest + Below(w, top), x);
        }
      }
    }
  }
}
