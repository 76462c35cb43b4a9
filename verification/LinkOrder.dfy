/** Exactly when the order of directory listings does not matter to a walk that follows links. */
module LinkOrder {
  import opened Prelude
  import opened Identity
  import opened Entries
  import opened FileSystem
  import opened Traversal
  import opened Visibility
  import opened Following

  function VisitOf(w: Walk, path: Path): Visit {
    (path, w.Id('d', path))
  }

  /** What a walk with links finds below the share root. */
  ghost function Followed(w: Walk): Found
    requires w.files.Finite()
  {
    DirectSum(w, RootVisits(w))
  }

  ghost function RootVisits(w: Walk): Pending
    requires w.files.Finite()
  {
    FollowedVisits(w, {}, [VisitOf(w, w.root)])
  }

  /** Step `k` on the way to `path` resolves, is listed by the step before and is entered. */
  ghost predicate StepEntered(w: Walk, path: Path, k: nat)
    requires |w.root| <= k <= |path|
  {
    && w.files.canonicalize(path[..k]).Some?
    && (k > |w.root| ==> Listed(w, path[..k - 1], path[k - 1]) && VerdictAt(w, path[..k]).Descend?)
  }

  /** `path` can be reached from the root without entering any directory twice. */
  ghost predicate Simple(w: Walk, path: Path) {
    && w.root <= path
    && (forall k :: |w.root| <= k <= |path| ==> StepEntered(w, path, k))
    && (forall j, k :: |w.root| <= j < k <= |path| ==>
         w.files.canonicalize(path[..j]) != w.files.canonicalize(path[..k]))
  }

  /** No two ways that enter no directory twice lead to one directory that adds anything. */
  ghost predicate Unambiguous(w: Walk) {
    forall p, q :: Simple(w, p) && Simple(w, q) && p != q && w.files.canonicalize(p) == w.files.canonicalize(q)
      ==> DirectVisit(w, VisitOf(w, p)) == NOTHING
  }

  // --- Directories read are on simple ways ---------------------------------------------------

  lemma {:induction false} SubdirectoryIsListed(w: Walk, directory: Path, id: string, items: seq<Option<Name>>,
                                                x: Visit)
    requires x in Subdirectories(w, directory, id, items)
    ensures x.0 != [] && Parent(x.0) == directory && Some(x.0[|x.0| - 1]) in items
    ensures var v := Inspect(w, directory, id, Some(x.0[|x.0| - 1])); v.Descend? && x == (v.entry.path, v.entry.id)
    decreases |items|
  {
    hide Inspect, Walk.Id;
    var front, last := items[..|items| - 1], items[|items| - 1];
    if x in Subdirectories(w, directory, id, front) {
      SubdirectoryIsListed(w, directory, id, front, x);
    }
  }

  lemma {:induction false} ListedIsSubdirectory(w: Walk, directory: Path, id: string, items: seq<Option<Name>>,
                                                item: Option<Name>)
    requires item in items && Inspect(w, directory, id, item).Descend?
    ensures var e := Inspect(w, directory, id, item).entry; (e.path, e.id) in Subdirectories(w, directory, id, items)
    decreases |items|
  {
    hide Inspect, Walk.Id;
    var front, last := items[..|items| - 1], items[|items| - 1];
    if item != last {
      ListedIsSubdirectory(w, directory, id, front, item);
    }
  }

  /** The directories below `y`, if `y` carries the identifier of its path. */
  lemma BelowIs(w: Walk, y: Visit, x: Visit)
    requires y == VisitOf(w, y.0)
    ensures x in Below(w, y) <==>
      && x.0 != [] && Parent(x.0) == y.0 && Listed(w, y.0, x.0[|x.0| - 1])
      && VerdictAt(w, x.0).Descend? && x == VisitOf(w, x.0)
  {
    hide Inspect, Walk.Id, Subdirectories;
    var items := w.files.readDir(y.0);
    if items.Some? {
      if x in Below(w, y) {
        SubdirectoryIsListed(w, y.0, y.1, items.value, x);
      }
      if x.0 != [] && Parent(x.0) == y.0 && Listed(w, y.0, x.0[|x.0| - 1]) && VerdictAt(w, x.0).Descend?
        && x == VisitOf(w, x.0) {
        ListedIsSubdirectory(w, y.0, y.1, items.value, Some(x.0[|x.0| - 1]));
        assert y.0 + [x.0[|x.0| - 1]] == x.0;
      }
    }
  }

  /** Every directory read lies on a simple way whose steps are all read. */
  lemma {:induction false} ReadIsSimple(w: Walk, x: Visit)
    requires w.files.Finite() && x in RootVisits(w)
    ensures x == VisitOf(w, x.0) && Simple(w, x.0)
    ensures forall k :: |w.root| <= k <= |x.0| ==> VisitOf(w, x.0[..k]) in RootVisits(w)
    decreases |x.0|
  {
    hide Below, FollowedVisits, Walk.Id, VerdictAt, Listed;
    var visits := RootVisits(w);
    EachReadOnce(w, {}, [VisitOf(w, w.root)]);
    ReadOnlyFound(w, {}, [VisitOf(w, w.root)], x);
    if x == VisitOf(w, w.root) {
      assert x.0[..|w.root|] == x.0;
    } else {
      var y :| y in visits && x in Below(w, y);
      ParentShorter(w, y, x);
      ReadIsSimple(w, y);
      BelowIs(w, y, x);
      StepsBelow(w, visits, y, x);
    }
  }

  lemma ParentShorter(w: Walk, y: Visit, x: Visit)
    requires x in Below(w, y)
    ensures |y.0| < |x.0|
  {
    SubdirectoryIsListed(w, y.0, y.1, w.files.readDir(y.0).value, x);
  }

  lemma StepsBelow(w: Walk, visits: Pending, y: Visit, x: Visit)
    requires AllDifferent(w, {}, visits) && x in visits && x == VisitOf(w, x.0)
    requires Simple(w, y.0) && forall k :: |w.root| <= k <= |y.0| ==> VisitOf(w, y.0[..k]) in visits
    requires x.0 != [] && Parent(x.0) == y.0 && Listed(w, y.0, x.0[|x.0| - 1]) && VerdictAt(w, x.0).Descend?
    ensures Simple(w, x.0)
    ensures forall k :: |w.root| <= k <= |x.0| ==> VisitOf(w, x.0[..k]) in visits
  {
    hide Walk.Id, VerdictAt, Listed;
    var n := |x.0|;
    assert x.0[..n] == x.0 && x.0[..n - 1] == y.0;
    forall k | |w.root| <= k <= n
      ensures VisitOf(w, x.0[..k]) in visits && StepEntered(w, x.0, k)
    {
      if k < n {
        assert x.0[..k] == y.0[..k] && StepEntered(w, y.0, k);
        if k > |w.root| {
          assert x.0[..k - 1] == y.0[..k - 1] && x.0[k - 1] == y.0[k - 1];
        }
      }
    }
    forall j, k | |w.root| <= j < k <= n
      ensures w.files.canonicalize(x.0[..j]) != w.files.canonicalize(x.0[..k])
    {
      DifferentVisits(w, visits, VisitOf(w, x.0[..j]), VisitOf(w, x.0[..k]));
    }
  }

  lemma DifferentVisits(w: Walk, visits: Pending, a: Visit, b: Visit)
    requires AllDifferent(w, {}, visits) && a in visits && b in visits && a != b
    ensures w.files.canonicalize(a.0) != w.files.canonicalize(b.0)
  {
    var i :| 0 <= i < |visits| && visits[i] == a;
    var j :| 0 <= j < |visits| && visits[j] == b;
    if i < j {
    } else {
      assert j < i;
    }
  }

  // --- What does not depend on the order -----------------------------------------------------

  lemma {:induction false} DirectReordered(v: Walk, w: Walk, directory: Path, id: string, items: seq<Option<Name>>)
    requires Reordered(v, w)
    ensures Direct(v, directory, id, items) == Direct(w, directory, id, items)
    decreases |items|
  {
    hide Inspect, Walk.Id;
    if items != [] {
      DirectReordered(v, w, directory, id, items[..|items| - 1]);
      VerdictOrderFree(v, w, directory, id, items[|items| - 1]);
    }
  }

  lemma PlusLast(a: Found, b: Found, c: Found)
    ensures a.Plus(b).Plus(c) == a.Plus(c).Plus(b)
  {
    assert a.entries + b.entries + c.entries == a.entries + c.entries + b.entries;
    assert a.withheld + b.withheld + c.withheld == a.withheld + c.withheld + b.withheld;
  }

  lemma {:induction false} ExtractDirect(w: Walk, directory: Path, id: string, items: seq<Option<Name>>, i: nat)
    requires i < |items|
    ensures Direct(w, directory, id, items)
         == Direct(w, directory, id, items[..i] + items[i + 1..]).Plus(DirectItem(w, directory, id, items[i]))
    decreases |items|
  {
    hide DirectItem, Found.Plus;
    var front, others := items[..|items| - 1], items[..i] + items[i + 1..];
    if i == |front| {
      assert others == front;
    } else {
      ExtractDirect(w, directory, id, front, i);
      LeaveOutEarlier(items, i);
      PlusLast(Direct(w, directory, id, front[..i] + front[i + 1..]), DirectItem(w, directory, id, items[i]),
               DirectItem(w, directory, id, items[|items| - 1]));
    }
  }

  lemma {:induction false} DirectPermuted(w: Walk, directory: Path, id: string, xs: seq<Option<Name>>,
                                          ys: seq<Option<Name>>)
    requires multiset(xs) == multiset(ys)
    ensures Direct(w, directory, id, xs) == Direct(w, directory, id, ys)
    decreases |xs|
  {
    hide DirectItem, Found.Plus;
    if xs == [] {
      assert |ys| == |multiset(ys)| == 0;
    } else {
      assert xs[0] in multiset(ys);
      var i :| 0 <= i < |ys| && ys[i] == xs[0];
      DropShared(xs, ys, i);
      DirectPermuted(w, directory, id, xs[1..], ys[..i] + ys[i + 1..]);
      ExtractDirect(w, directory, id, ys, i);
      ExtractDirect(w, directory, id, xs, 0);
      assert xs[..0] + xs[1..] == xs[1..];
    }
  }

  lemma VisitReordered(v: Walk, w: Walk, x: Visit)
    requires Reordered(v, w)
    ensures DirectVisit(v, x) == DirectVisit(w, x)
  {
    hide Direct;
    var xs, ys := v.files.readDir(x.0), w.files.readDir(x.0);
    if xs.Some? {
      DirectReordered(v, w, x.0, x.1, xs.value);
      DirectPermuted(w, x.0, x.1, xs.value, ys.value);
    }
  }

  lemma {:induction false} SumReordered(v: Walk, w: Walk, visits: Pending)
    requires Reordered(v, w)
    ensures DirectSum(v, visits) == DirectSum(w, visits)
    decreases |visits|
  {
    hide DirectVisit;
    if visits != [] {
      SumReordered(v, w, visits[..|visits| - 1]);
      VisitReordered(v, w, visits[|visits| - 1]);
    }
  }

  lemma StepReordered(v: Walk, w: Walk, path: Path, k: nat)
    requires Reordered(v, w) && |v.root| <= k <= |path|
    ensures StepEntered(v, path, k) == StepEntered(w, path, k)
  {
    hide VerdictAt, Listed;
    if k > |v.root| {
      ListedReordered(v, w, path[..k - 1], path[k - 1]);
      VerdictReordered(v, w, path[..k]);
    }
  }

  lemma ListedReordered(v: Walk, w: Walk, directory: Path, name: Name)
    requires Reordered(v, w)
    ensures Listed(v, directory, name) == Listed(w, directory, name)
  {
    var xs, ys := v.files.readDir(directory), w.files.readDir(directory);
    if xs.Some? {
      assert Some(name) in xs.value <==> Some(name) in multiset(xs.value);
      assert Some(name) in ys.value <==> Some(name) in multiset(ys.value);
    }
  }

  lemma VerdictReordered(v: Walk, w: Walk, path: Path)
    requires Reordered(v, w) && path != []
    ensures VerdictAt(v, path) == VerdictAt(w, path)
  {
    assert v.Id('d', Parent(path)) == w.Id('d', Parent(path));
    VerdictOrderFree(v, w, Parent(path), v.Id('d', Parent(path)), Some(path[|path| - 1]));
    hide Inspect, Walk.Id;
  }

  lemma SimpleReordered(v: Walk, w: Walk, path: Path)
    requires Reordered(v, w)
    ensures Simple(v, path) == Simple(w, path)
  {
    hide StepEntered;
    if v.root <= path {
      forall k | |v.root| <= k <= |path|
        ensures StepEntered(v, path, k) == StepEntered(w, path, k)
      {
        StepReordered(v, w, path, k);
      }
    }
  }

  lemma UnambiguousReordered(v: Walk, w: Walk)
    requires Reordered(v, w) && Unambiguous(v)
    ensures Unambiguous(w)
  {
    hide Simple, DirectVisit, Walk.Id;
    forall p, q | Simple(w, p) && Simple(w, q) && p != q && w.files.canonicalize(p) == w.files.canonicalize(q)
      ensures DirectVisit(w, VisitOf(w, p)) == NOTHING
    {
      SimpleReordered(v, w, p);
      SimpleReordered(v, w, q);
      VisitReordered(v, w, VisitOf(v, p));
      SameVisit(v, w, p);
    }
  }

  lemma SameVisit(v: Walk, w: Walk, path: Path)
    requires v.root == w.root
    ensures VisitOf(v, path) == VisitOf(w, path)
  {
  }

  // --- Unambiguous walks are free of order ---------------------------------------------------

  lemma {:induction false} SubdirectoriesAdd(w: Walk, directory: Path, id: string, items: seq<Option<Name>>)
    ensures Subdirectories(w, directory, id, items) != [] ==> Direct(w, directory, id, items) != NOTHING
    decreases |items|
  {
    hide Inspect;
    if items != [] {
      var front, last := items[..|items| - 1], items[|items| - 1];
      SubdirectoriesAdd(w, directory, id, front);
      var a, b := Direct(w, directory, id, front), DirectItem(w, directory, id, last);
      assert |a.Plus(b).entries| == |a.entries| + |b.entries| && |a.Plus(b).withheld| == |a.withheld| + |b.withheld|;
      if a.Plus(b) == NOTHING {
        assert |a.entries| == 0 && |b.entries| == 0 && |a.withheld| == 0;
        assert a == NOTHING;
      }
    }
  }

  /** A directory that adds something is read in every order. */
  lemma {:induction false} ReadInEveryOrder(v: Walk, w: Walk, x: Visit)
    requires Reordered(v, w) && Unambiguous(v)
    requires x in RootVisits(v) && DirectVisit(v, x) != NOTHING
    ensures x in RootVisits(w)
    decreases |x.0|
  {
    hide Below, FollowedVisits, Walk.Id, VerdictAt, Listed, Simple, DirectVisit, Unambiguous;
    var start := [VisitOf(v, v.root)];
    ReadIsSimple(v, x);
    SameVisit(v, w, v.root);
    ReadOnlyFound(v, {}, start, x);
    if x !in start {
      var y :| y in RootVisits(v) && x in Below(v, y);
      ParentShorter(v, y, x);
      BelowAdds(v, y, x);
      ReadIsSimple(v, y);
      ReadInEveryOrder(v, w, y);
      BelowReordered(v, w, y, x);
    }
    EverythingCovered(w, {}, start, x);
    EachReadOnce(v, {}, start);
    var z :| z in RootVisits(w) && w.files.canonicalize(z.0) == w.files.canonicalize(x.0);
    ReadIsSimple(w, z);
    SimpleReordered(v, w, z.0);
    SameVisit(v, w, z.0);
    OnlyName(v, x, z);
  }

  lemma OnlyName(w: Walk, x: Visit, z: Visit)
    requires Unambiguous(w) && Simple(w, x.0) && Simple(w, z.0) && DirectVisit(w, x) != NOTHING
    requires x == VisitOf(w, x.0) && z == VisitOf(w, z.0) && w.files.canonicalize(x.0) == w.files.canonicalize(z.0)
    ensures x == z
  {
    hide Simple, DirectVisit, Walk.Id;
  }

  lemma BelowAdds(w: Walk, y: Visit, x: Visit)
    requires x in Below(w, y)
    ensures DirectVisit(w, y) != NOTHING
  {
    hide Subdirectories, Direct;
    SubdirectoriesAdd(w, y.0, y.1, w.files.readDir(y.0).value);
  }

  lemma BelowReordered(v: Walk, w: Walk, y: Visit, x: Visit)
    requires Reordered(v, w) && y == VisitOf(v, y.0) && x in Below(v, y)
    ensures x in Below(w, y)
  {
    hide Below, Walk.Id, VerdictAt, Listed, Reordered;
    SameRoot(v, w);
    SameVisit(v, w, y.0);
    SameVisit(v, w, x.0);
    BelowIs(v, y, x);
    BelowIs(w, y, x);
    ListedReordered(v, w, y.0, x.0[|x.0| - 1]);
    VerdictReordered(v, w, x.0);
  }

  lemma SameRoot(v: Walk, w: Walk)
    requires Reordered(v, w)
    ensures v.root == w.root
  {
  }

  lemma {:induction false} ExtractVisit(w: Walk, visits: Pending, i: nat)
    requires i < |visits|
    ensures DirectSum(w, visits) == DirectSum(w, visits[..i] + visits[i + 1..]).Plus(DirectVisit(w, visits[i]))
    decreases |visits|
  {
    hide DirectVisit, Found.Plus;
    var front, others := visits[..|visits| - 1], visits[..i] + visits[i + 1..];
    if i == |front| {
      assert others == front;
    } else {
      ExtractVisit(w, front, i);
      LeaveOutEarlier(visits, i);
      PlusLast(DirectSum(w, front[..i] + front[i + 1..]), DirectVisit(w, visits[i]),
               DirectVisit(w, visits[|visits| - 1]));
    }
  }

  /** What is read adds up to the same if it differs only in directories that add nothing. */
  lemma {:induction false} SameSum(w: Walk, a: Pending, b: Pending)
    requires NoDuplicates(a) && NoDuplicates(b)
    requires forall x :: x in a && DirectVisit(w, x) != NOTHING ==> x in b
    requires forall x :: x in b && DirectVisit(w, x) != NOTHING ==> x in a
    ensures DirectSum(w, a) == DirectSum(w, b)
    decreases |a| + |b|
  {
    hide DirectVisit, Found.Plus;
    if a == [] {
      if b != [] {
        var front, last := b[..|b| - 1], b[|b| - 1];
        assert last in b;
        SameSum(w, a, front);
        PlusNothing(DirectSum(w, front));
      }
    } else {
      var front, last := a[..|a| - 1], a[|a| - 1];
      assert a == front + [last] && last in a && last !in front;
      if DirectVisit(w, last) == NOTHING {
        SameSum(w, front, b);
        PlusNothing(DirectSum(w, front));
      } else {
        var i :| 0 <= i < |b| && b[i] == last;
        var others := b[..i] + b[i + 1..];
        DropOne(b, i);
        SameSum(w, front, others);
        ExtractVisit(w, b, i);
      }
    }
  }

  lemma DropOne(s: Pending, i: nat)
    requires NoDuplicates(s) && i < |s|
    ensures var others := s[..i] + s[i + 1..];
            NoDuplicates(others) && forall x :: x in others <==> x in s && x != s[i]
  {
    var others := s[..i] + s[i + 1..];
    assert forall k :: 0 <= k < |others| ==> others[k] == s[if k < i then k else k + 1];
    forall x | x in s && x != s[i]
      ensures x in others
    {
      var k :| 0 <= k < |s| && s[k] == x;
      assert others[if k < i then k else k - 1] == x;
    }
  }

  lemma AllDifferentIsDistinct(w: Walk, visited: set<Path>, visits: Pending)
    requires AllDifferent(w, visited, visits)
    ensures NoDuplicates(visits)
  {
  }

  /** Without ambiguity the order of listings does not matter. */
  lemma UnambiguousIsOrderFree(v: Walk, w: Walk)
    requires Reordered(v, w) && Unambiguous(v)
    ensures Followed(v) == Followed(w)
  {
    var a, b := RootVisits(v), RootVisits(w);
    SameVisit(v, w, v.root);
    EachReadOnce(v, {}, [VisitOf(v, v.root)]);
    EachReadOnce(w, {}, [VisitOf(w, w.root)]);
    AllDifferentIsDistinct(v, {}, a);
    AllDifferentIsDistinct(w, {}, b);
    UnambiguousReordered(v, w);
    ReorderedBack(v, w);
    hide RootVisits, DirectVisit, Unambiguous, Reordered, Walk.Id;
    forall x | DirectVisit(w, x) != NOTHING
      ensures x in a <==> x in b
    {
      VisitReordered(v, w, x);
      if x in a {
        ReadInEveryOrder(v, w, x);
      }
      if x in b {
        ReadInEveryOrder(w, v, x);
      }
    }
    SameSum(w, a, b);
    SumReordered(v, w, a);
  }

  lemma ReorderedBack(v: Walk, w: Walk)
    requires Reordered(v, w)
    ensures Reordered(w, v)
  {
  }

  // --- Ambiguous walks are not ---------------------------------------------------------------

  /** The listing with one occurrence of `item` moved to the end, from where it is taken first. */
  function MovedLast(items: seq<Option<Name>>, item: Option<Name>): (r: seq<Option<Name>>)
    requires item in items
    ensures multiset(r) == multiset(items)
    ensures r != [] && r[|r| - 1] == item
  {
    var i := IndexOf(items, item);
    RemoveIndex(items, i);
    items[..i] + items[i + 1..] + [item]
  }

  function IndexOf(items: seq<Option<Name>>, item: Option<Name>): (i: nat)
    requires item in items
    ensures i < |items| && items[i] == item
  {
    if items[0] == item then 0 else 1 + IndexOf(items[1..], item)
  }

  /** The same files, but every listing on the way to `path` ends with the next step. */
  function Leading(files: Files, path: Path): Files {
    files.(readDir := (d: Path) =>
      var items := files.readDir(d);
      if items.Some? && |d| < |path| && d == path[..|d|] && Some(path[|d|]) in items.value then
        Some(MovedLast(items.value, Some(path[|d|])))
      else items)
  }

  lemma LeadingReorders(v: Walk, path: Path)
    requires v.files.Finite()
    ensures Reordered(v, v.(files := Leading(v.files, path)))
  {
  }

  /** Every listing on the way to `path` ends with the next step. */
  ghost predicate Leads(w: Walk, path: Path) {
    forall k :: |w.root| <= k < |path| ==> LeadsAt(w, path, k)
  }

  ghost predicate LeadsAt(w: Walk, path: Path, k: nat)
    requires k < |path|
  {
    var items := w.files.readDir(path[..k]);
    items.Some? && items.value != [] && items.value[|items.value| - 1] == Some(path[k])
  }

  lemma LeadingLeads(v: Walk, path: Path)
    requires v.files.Finite() && Simple(v, path)
    ensures Leads(v.(files := Leading(v.files, path)), path)
  {
    var w := v.(files := Leading(v.files, path));
    hide VerdictAt;
    forall k | |v.root| <= k < |path|
      ensures LeadsAt(w, path, k)
    {
      assert StepEntered(v, path, k + 1);
      assert path[..k + 1][..k] == path[..k];
    }
  }

  lemma LastOnTop(w: Walk, y: Visit, x: Visit, items: seq<Option<Name>>)
    requires w.files.readDir(y.0) == Some(items) && items != []
    requires var v := Inspect(w, y.0, y.1, items[|items| - 1]); v.Descend? && x == (v.entry.path, v.entry.id)
    ensures var below := Below(w, y); below != [] && below[|below| - 1] == x
  {
    hide Inspect, Walk.Id;
  }

  lemma NextOnTop(w: Walk, path: Path, k: nat)
    requires Simple(w, path) && Leads(w, path) && |w.root| <= k < |path|
    ensures var below := Below(w, VisitOf(w, path[..k]));
            below != [] && below[|below| - 1] == VisitOf(w, path[..k + 1])
  {
    NextStep(w, path, k);
    hide *;
    PrefixStep(path, k);
    LeadOnTop(w, path[..k], path[k]);
  }

  lemma NextStep(w: Walk, path: Path, k: nat)
    requires Simple(w, path) && Leads(w, path) && |w.root| <= k < |path|
    ensures VerdictAt(w, path[..k + 1]).Descend?
    ensures var items := w.files.readDir(path[..k]);
            items.Some? && items.value != [] && items.value[|items.value| - 1] == Some(path[k])
  {
    hide VerdictAt, Listed;
    assert LeadsAt(w, path, k) && StepEntered(w, path, k + 1);
  }

  lemma PrefixStep(path: Path, k: nat)
    requires k < |path|
    ensures path[..k] + [path[k]] == path[..k + 1]
  {
  }

  lemma LeadOnTop(w: Walk, directory: Path, name: Name)
    requires VerdictAt(w, directory + [name]).Descend?
    requires var items := w.files.readDir(directory);
             items.Some? && items.value != [] && items.value[|items.value| - 1] == Some(name)
    ensures var below := Below(w, VisitOf(w, directory));
            below != [] && below[|below| - 1] == VisitOf(w, directory + [name])
  {
    EnteredAt(w, directory, name);
    hide Inspect, Walk.Id, Below, VerdictAt;
    LastOnTop(w, VisitOf(w, directory), VisitOf(w, directory + [name]), w.files.readDir(directory).value);
  }

  lemma EnteredAt(w: Walk, directory: Path, name: Name)
    requires VerdictAt(w, directory + [name]).Descend?
    ensures var v := Inspect(w, directory, w.Id('d', directory), Some(name));
            v.Descend? && VisitOf(w, directory + [name]) == (v.entry.path, v.entry.id)
  {
    hide Inspect, Walk.Id;
    assert Parent(directory + [name]) == directory;
  }

  /** The walk goes straight down a simple way that every listing leads along. */
  lemma {:induction false} ReadStraight(w: Walk, visited: set<Path>, pending: Pending, path: Path, k: nat)
    requires w.files.Finite() && Simple(w, path) && Leads(w, path) && |w.root| <= k <= |path|
    requires pending != [] && pending[|pending| - 1] == VisitOf(w, path[..k])
    requires forall j :: k <= j <= |path| && w.files.canonicalize(path[..j]).Some? ==>
      w.files.canonicalize(path[..j]).value !in visited
    ensures VisitOf(w, path) in FollowedVisits(w, visited, pending)
    decreases |path| - k
  {
    hide Walk.Id, Below, VerdictAt, Listed;
    assert StepEntered(w, path, k);
    var top, rest := pending[|pending| - 1], pending[..|pending| - 1];
    var target := w.files.canonicalize(top.0).value;
    var others := FollowedVisits(w, visited + {target}, rest + Below(w, top));
    assert FollowedVisits(w, visited, pending) == [top] + others;
    if k == |path| {
      assert path[..k] == path;
    } else {
      NextOnTop(w, path, k);
      ReadStraight(w, visited + {target}, rest + Below(w, top), path, k + 1);
    }
  }

  /** With every listing leading along a simple way, its end is read under that name. */
  lemma LeadingReads(v: Walk, path: Path)
    requires v.files.Finite() && Simple(v, path)
    ensures var w := v.(files := Leading(v.files, path)); Reordered(v, w) && VisitOf(v, path) in RootVisits(w)
  {
    var w := v.(files := Leading(v.files, path));
    LeadingReorders(v, path);
    LeadingLeads(v, path);
    SimpleReordered(v, w, path);
    SameVisit(v, w, path);
    hide Simple, Leads, Walk.Id;
    assert path[..|w.root|] == w.root by { SimpleBelowRoot(w, path); }
    ReadStraight(w, {}, [VisitOf(w, w.root)], path, |w.root|);
  }

  /** For every simple way there is an order of listings in which its end is read under that name. */
  lemma SomeOrderReads(v: Walk, path: Path) returns (w: Walk)
    requires v.files.Finite() && Simple(v, path)
    ensures Reordered(v, w) && VisitOf(v, path) in RootVisits(w)
  {
    w := v.(files := Leading(v.files, path));
    LeadingReads(v, path);
  }

  lemma SimpleBelowRoot(w: Walk, path: Path)
    requires Simple(w, path)
    ensures w.root <= path
  {
  }

  /** An entry found or withheld. */
  ghost predicate Mentions(f: Found, e: Entry) {
    e in f.entries || e in f.withheld
  }

  lemma SomethingMentioned(f: Found) returns (e: Entry)
    requires f != NOTHING
    ensures Mentions(f, e)
  {
    if f.entries != multiset{} {
      e :| e in f.entries;
    } else {
      e :| e in f.withheld;
    }
  }

  lemma {:induction false} DirectMentions(w: Walk, directory: Path, id: string, items: seq<Option<Name>>, e: Entry)
    requires Mentions(Direct(w, directory, id, items), e)
    ensures e.path != [] && Parent(e.path) == directory
    decreases |items|
  {
    hide Walk.Id;
    var front, last := items[..|items| - 1], items[|items| - 1];
    if Mentions(Direct(w, directory, id, front), e) {
      DirectMentions(w, directory, id, front, e);
    } else {
      assert Mentions(DirectItem(w, directory, id, last), e);
      hide Inspect;
    }
  }

  lemma {:induction false} SumMentions(w: Walk, visits: Pending, e: Entry)
    ensures Mentions(DirectSum(w, visits), e) <==> exists x :: x in visits && Mentions(DirectVisit(w, x), e)
    decreases |visits|
  {
    hide DirectVisit;
    if visits != [] {
      var front, last := visits[..|visits| - 1], visits[|visits| - 1];
      assert visits == front + [last];
      SumMentions(w, front, e);
      assert last in visits;
    }
  }

  /** Only a directory read under the name `path` yields entries right below `path`. */
  lemma MentionedOnlyFrom(w: Walk, path: Path, e: Entry)
    requires w.files.Finite() && Mentions(Followed(w), e) && e.path != [] && Parent(e.path) == path
    ensures exists x :: x in RootVisits(w) && x.0 == path
  {
    hide RootVisits, Direct;
    SumMentions(w, RootVisits(w), e);
    var x :| x in RootVisits(w) && Mentions(DirectVisit(w, x), e);
    DirectMentions(w, x.0, x.1, w.files.readDir(x.0).value, e);
  }

  /** Two names for one directory that adds something: reading it under one or the other differs. */
  lemma AmbiguousDependsOnOrder(v: Walk, p: Path, q: Path) returns (a: Walk, b: Walk)
    requires v.files.Finite() && Simple(v, p) && Simple(v, q) && p != q
    requires v.files.canonicalize(p) == v.files.canonicalize(q) && DirectVisit(v, VisitOf(v, p)) != NOTHING
    ensures Reordered(v, a) && Reordered(v, b) && Followed(a) != Followed(b)
  {
    a := SomeOrderReads(v, p);
    b := SomeOrderReads(v, q);
    VisitReordered(v, a, VisitOf(v, p));
    EachReadOnce(b, {}, [VisitOf(b, b.root)]);
    hide RootVisits, Simple, DirectVisit, Walk.Id;
    var e := SomethingMentioned(DirectVisit(a, VisitOf(v, p)));
    SumMentions(a, RootVisits(a), e);
    MentionedBelow(a, p, VisitOf(v, p), e);
    if Followed(a) == Followed(b) {
      MentionedOnlyFrom(b, p, e);
      var x :| x in RootVisits(b) && x.0 == p;
      DifferentVisits(b, RootVisits(b), x, VisitOf(v, q));
    }
  }

  lemma MentionedBelow(w: Walk, path: Path, x: Visit, e: Entry)
    requires x.0 == path && Mentions(DirectVisit(w, x), e)
    ensures e.path != [] && Parent(e.path) == path
  {
    hide Direct;
    DirectMentions(w, x.0, x.1, w.files.readDir(x.0).value, e);
  }

  /**
   * With links followed, the order in which directories list their items does not matter exactly
   * when no directory that adds something can be reached under two names by ways that enter no
   * directory twice. Links back to a directory on the way do no harm.
   */
  lemma OrderFreeIffUnambiguous(v: Walk)
    requires v.files.Finite()
    ensures (forall w :: Reordered(v, w) ==> Followed(w) == Followed(v)) <==> Unambiguous(v)
  {
    if Unambiguous(v) {
      forall w | Reordered(v, w)
        ensures Followed(w) == Followed(v)
      {
        UnambiguousIsOrderFree(v, w);
      }
    } else {
      hide Simple, DirectVisit, Followed, Walk.Id, Reordered;
      var p, q :| Simple(v, p) && Simple(v, q) && p != q && v.files.canonicalize(p) == v.files.canonicalize(q)
        && DirectVisit(v, VisitOf(v, p)) != NOTHING;
      var a, b := AmbiguousDependsOnOrder(v, p, q);
      assert Followed(a) != Followed(b);
    }
  }
}
