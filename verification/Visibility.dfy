/**
 * A second, path-by-path account of what a scan without links finds: an entry is found exactly
 * when every directory above it is listed and descended into and its own item is accepted.
 */
module Visibility {
  import opened Prelude
  import opened Identity
  import opened Entries
  import opened Traversal

  function Parent(path: Path): Path
    requires path != []
  {
    path[..|path| - 1]
  }

  /** The verdict on the item at `path`, seen from its parent directory. */
  function VerdictAt(w: Walk, path: Path): Verdict
    requires path != []
  {
    Inspect(w, Parent(path), w.Id('d', Parent(path)), Some(path[|path| - 1]))
  }

  predicate Listed(w: Walk, directory: Path, name: Name) {
    var items := w.files.readDir(directory);
    items.Some? && Some(name) in items.value
  }

  /** From `top` down to `path`, each name is listed and each directory in between is entered. */
  ghost predicate Visible(w: Walk, top: Path, path: Path): (r: bool)
    ensures r ==> |top| < |path| && top <= path
  {
    && |top| < |path| && top <= path
    && (forall k :: |top| <= k < |path| ==> Listed(w, path[..k], path[k]))
    && (forall k :: |top| < k < |path| ==> VerdictAt(w, path[..k]).Descend?)
  }

  lemma {:induction false} MembersOfItems(w: Walk, directory: Path, id: string, items: seq<Option<Name>>, e: Entry)
    requires PlainTree(w)
    ensures e in ExploreItems(w, directory, id, items).entries
       <==> exists item :: item in items && e in ExploreItem(w, directory, id, item).entries
    ensures e in ExploreItems(w, directory, id, items).withheld
       <==> exists item :: item in items && e in ExploreItem(w, directory, id, item).withheld
    decreases |items|
  {
    hide ExploreItem, Inspect;
    if items != [] {
      MembersOfItems(w, directory, id, items[1..], e);
      var first := ExploreItem(w, directory, id, items[0]);
      var rest := ExploreItems(w, directory, id, items[1..]);
      assert ExploreItems(w, directory, id, items) == first.Plus(rest);
      assert items[0] in items;
      assert forall item :: item in items <==> item == items[0] || item in items[1..];
    }
  }

  lemma VisibleDeeper(w: Walk, top: Path, child: Path, path: Path)
    requires child != [] && Parent(child) == top
    requires Listed(w, top, child[|child| - 1]) && VerdictAt(w, child).Descend?
    requires Visible(w, child, path)
    ensures Visible(w, top, path)
  {
    hide Inspect, Walk.Id;
    assert path[..|child|] == child && path[..|top|] == top;
    forall k | |top| <= k < |path|
      ensures Listed(w, path[..k], path[k])
    {
      if k == |top| {
        assert path[..k] == top && path[k] == child[|child| - 1];
      }
    }
  }

  lemma VisibleBelow(w: Walk, top: Path, path: Path)
    requires Visible(w, top, path) && |top| + 1 < |path|
    ensures Visible(w, path[..|top| + 1], path)
  {
    hide Inspect, Walk.Id;
    assert path[..|top| + 1][..|top| + 1] == path[..|top| + 1];
  }

  /** One direction: whatever a walk finds or withholds is visible, with the verdict saying so. */
  lemma {:induction false} FoundIsVisible(w: Walk, top: Path, e: Entry)
    requires PlainTree(w)
    ensures e in Explore(w, top, w.Id('d', top)).entries ==>
      Visible(w, top, e.path) && VerdictAt(w, e.path) in {Add(e), Descend(e)}
    ensures e in Explore(w, top, w.Id('d', top)).withheld ==>
      Visible(w, top, e.path) && VerdictAt(w, e.path) == Withhold(e)
    decreases Height(w, top), 1
  {
    hide Inspect, Walk.Id, Visible, VerdictAt, ExploreItem, ExploreItems;
    var id := w.Id('d', top);
    var items := w.files.readDir(top);
    if items.Some? {
      MembersOfItems(w, top, id, items.value, e);
      forall item | item in items.value
        ensures VisibleIn(w, top, ExploreItem(w, top, id, item), e)
      {
        ItemIsVisible(w, top, item, e);
      }
    }
  }

  /** What `f` says of `e` is borne out by its path below `top`. */
  ghost predicate VisibleIn(w: Walk, top: Path, f: Found, e: Entry) {
    && (e in f.entries ==> Visible(w, top, e.path) && VerdictAt(w, e.path) in {Add(e), Descend(e)})
    && (e in f.withheld ==> Visible(w, top, e.path) && VerdictAt(w, e.path) == Withhold(e))
  }

  lemma {:induction false} ItemIsVisible(w: Walk, top: Path, item: Option<Name>, e: Entry)
    requires PlainTree(w)
    requires w.files.readDir(top).Some? && item in w.files.readDir(top).value
    ensures VisibleIn(w, top, ExploreItem(w, top, w.Id('d', top), item), e)
    decreases Height(w, top), 0
  {
    hide Inspect, Walk.Id, Visible, VerdictAt, Explore;
    var verdict := Inspect(w, top, w.Id('d', top), item);
    if !verdict.Skip? {
      AcceptedItem(w, top, item.value);
      if verdict.Descend? {
        FoundIsVisible(w, verdict.entry.path, e);
        if Visible(w, verdict.entry.path, e.path) {
          VisibleDeeper(w, top, verdict.entry.path, e.path);
        }
      }
    }
  }

  /** An accepted item of a listing is visible from its own directory. */
  lemma AcceptedItem(w: Walk, top: Path, name: Name)
    requires Listed(w, top, name)
    ensures Visible(w, top, top + [name])
    ensures Parent(top + [name]) == top && VerdictAt(w, top + [name]) == Inspect(w, top, w.Id('d', top), Some(name))
  {
    hide Inspect, Walk.Id;
    assert Parent(top + [name]) == top;
    assert (top + [name])[..|top|] == top;
  }

  /** The other direction: a visible path is found or withheld, as its verdict says. */
  lemma {:induction false} VisibleIsFound(w: Walk, top: Path, path: Path)
    requires PlainTree(w) && Visible(w, top, path)
    ensures var v := VerdictAt(w, path); var f := Explore(w, top, w.Id('d', top));
            && (v.Add? || v.Descend? ==> v.entry in f.entries)
            && (v.Withhold? ==> v.entry in f.withheld)
    decreases |path| - |top|
  {
    hide Inspect, Walk.Id, Explore, ExploreItem;
    var child, name := path[..|top| + 1], path[|top|];
    assert path[..|top|] == top && child == top + [name];
    assert Listed(w, top, name);
    if |path| == |top| + 1 {
      assert path == child;
      ItemIsFound(w, top, name);
    } else {
      assert VerdictAt(w, child).Descend?;
      VisibleBelow(w, top, path);
      VisibleIsFound(w, child, path);
      hide Visible, VerdictAt;
      var v := VerdictAt(w, path);
      if !v.Skip? {
        SubtreeIsFound(w, top, name, v.entry);
      }
    }
  }

  lemma ItemIsFound(w: Walk, top: Path, name: Name)
    requires PlainTree(w) && Listed(w, top, name)
    ensures var v := VerdictAt(w, top + [name]); var f := Explore(w, top, w.Id('d', top));
            && (v.Add? || v.Descend? ==> v.entry in f.entries)
            && (v.Withhold? ==> v.entry in f.withheld)
  {
    hide Inspect, Walk.Id, Visible, ExploreItems;
    AcceptedItem(w, top, name);
    var v := VerdictAt(w, top + [name]);
    if !v.Skip? {
      MembersOfItems(w, top, w.Id('d', top), w.files.readDir(top).value, v.entry);
    }
  }

  lemma SubtreeIsFound(w: Walk, top: Path, name: Name, e: Entry)
    requires PlainTree(w) && Listed(w, top, name) && VerdictAt(w, top + [name]).Descend?
    ensures var below := Explore(w, top + [name], w.Id('d', top + [name])); var f := Explore(w, top, w.Id('d', top));
            && (e in below.entries ==> e in f.entries)
            && (e in below.withheld ==> e in f.withheld)
  {
    AcceptedItem(w, top, name);
    MembersOfItems(w, top, w.Id('d', top), w.files.readDir(top).value, e);
    hide Inspect, Walk.Id, Visible, ExploreItems, VerdictAt;
    assert Some(name) in w.files.readDir(top).value;
    SubtreeOfItem(w, top, name, e);
  }

  lemma SubtreeOfItem(w: Walk, top: Path, name: Name, e: Entry)
    requires PlainTree(w) && Inspect(w, top, w.Id('d', top), Some(name)).Descend?
    ensures var below := Explore(w, top + [name], w.Id('d', top + [name]));
            var f := ExploreItem(w, top, w.Id('d', top), Some(name));
            && (e in below.entries ==> e in f.entries)
            && (e in below.withheld ==> e in f.withheld)
  {
    hide Inspect, Walk.Id, Explore;
  }

  /** What a walk finds and withholds, characterised path by path. */
  lemma ExploreExactly(w: Walk, top: Path, e: Entry)
    requires PlainTree(w)
    ensures var f := Explore(w, top, w.Id('d', top));
            && (e in f.entries <==>
                 Visible(w, top, e.path) && VerdictAt(w, e.path) in {Add(e), Descend(e)})
            && (e in f.withheld <==>
                 Visible(w, top, e.path) && VerdictAt(w, e.path) == Withhold(e))
  {
    FoundIsVisible(w, top, e);
    if Visible(w, top, e.path) {
      VisibleIsFound(w, top, e.path);
    }
  }
}
