/** Which fields a filter selects, and what the objects of an answer then hold. */
module Filters {
  import opened Prelude
  import opened Xml
  import opened Identity
  import opened Entries
  import opened CatalogSpec
  import opened FileSystem
  import opened Didl
  import opened Browse
  import opened BrowsePages
  import opened BrowseAnswers

  // --- Filters -------------------------------------------------------------------------------

  /** One of the properties between the commas of the filter. */
  ghost predicate Lists(filter: string, property: string) {
    exists front, back :: ListedAt(filter, front, property, back)
  }

  predicate ListedAt(filter: string, front: string, property: string, back: string) {
    && filter == front + property + back && ',' !in property
    && (front == "" || front[|front| - 1] == ',') && (back == "" || back[0] == ',')
  }

  /** Splitting takes off all before the first comma. */
  lemma SplitStep(filter: string) returns (first: string, rest: string)
    ensures ',' !in first
    ensures if first == filter then Split(filter, ',') == [filter]
            else filter == first + "," + rest && Split(filter, ',') == [first] + Split(rest, ',')
  {
    first := Until(filter, ',');
    UntilFollowed(filter, ',');
    rest := if |first| < |filter| then filter[|first| + 1..] else "";
    if |first| < |filter| {
      assert filter == first + [filter[|first|]] + rest;
    }
  }

  lemma {:induction false} PartIsListed(filter: string, property: string)
    requires property in Split(filter, ',')
    ensures Lists(filter, property)
    decreases |filter|
  {
    hide Split;
    var first, rest := SplitStep(filter);
    if first == filter {
      assert filter == "" + filter + "";
      assert ListedAt(filter, "", filter, "");
    } else if property == first {
      assert filter == "" + first + ("," + rest);
      assert ListedAt(filter, "", first, "," + rest);
    } else {
      PartIsListed(rest, property);
      var front, back :| ListedAt(rest, front, property, back);
      assert filter == (first + "," + front) + property + back;
      assert ListedAt(filter, first + "," + front, property, back);
    }
  }

  lemma {:induction false} ListedIsPart(filter: string, front: string, property: string, back: string)
    requires ListedAt(filter, front, property, back)
    ensures property in Split(filter, ',')
    decreases |filter|
  {
    hide Split;
    var first, rest := SplitStep(filter);
    if front == "" {
      if back == "" {
        assert filter == property;
        NoComma(filter, first, rest);
      } else {
        assert back == [','] + back[1..] && filter == property + [','] + back[1..];
        HasComma(filter, first, property, back[1..]);
        DelimiterSplits(first, rest, property, back[1..], ',');
      }
    } else {
      var others := CommaFirst(filter, first, rest, front, property + back);
      SameTail(first + ",", rest, others + (property + back));
      assert others + (property + back) == others + property + back;
      ListedIsPart(rest, others, property, back);
    }
  }

  lemma NoComma(filter: string, first: string, rest: string)
    requires ',' !in filter && (first == filter || filter == first + "," + rest)
    ensures first == filter
  {
    assert (first + "," + rest)[|first|] == ',';
  }

  lemma SameTail(front: string, a: string, b: string)
    requires front + a == front + b
    ensures a == b
  {
    assert a == (front + a)[|front|..] && b == (front + b)[|front|..];
  }

  lemma HasComma(filter: string, first: string, a: string, b: string)
    requires filter == a + [','] + b && ',' !in first
    ensures first != filter
  {
    assert filter[|a|] == ',';
  }

  /** A front that ends with a comma holds the first one. */
  lemma CommaFirst(filter: string, first: string, rest: string, front: string, tail: string) returns (others: string)
    requires filter == front + tail && front != "" && front[|front| - 1] == ',' && ',' !in first
    requires first == filter || filter == first + "," + rest
    ensures front == first + "," + others && (others == "" || others[|others| - 1] == ',')
    ensures first != filter && filter == first + "," + (others + tail)
  {
    HasComma(filter, first, front[..|front| - 1], tail) by {
      assert front == front[..|front| - 1] + [','];
    }
    assert filter[|front| - 1] == ',' && filter[..|first|] == first;
    assert |first| < |front|;
    others := front[|first| + 1..];
    assert front[|first|] == filter[|first|] == ',';
    assert front == front[..|first|] + "," + others && front[..|first|] == filter[..|first|];
  }

  /**
   * A star selects everything; otherwise a field is selected by its name between commas, and `res`
   * also by any of its attributes.
   */
  lemma FilterMeans(filter: string, requested: string)
    ensures FilterHas(filter, requested) <==>
      || filter == "*" || Lists(filter, requested)
      || (requested == "res" && exists property :: "res@" <= property && Lists(filter, property))
  {
    hide Split;
    forall property
      ensures property in Split(filter, ',') <==> Lists(filter, property)
    {
      if property in Split(filter, ',') {
        PartIsListed(filter, property);
      }
      if Lists(filter, property) {
        var front, back :| ListedAt(filter, front, property, back);
        ListedIsPart(filter, front, property, back);
      }
    }
  }

  // --- Objects -------------------------------------------------------------------------------

  /** The field is selected, by itself or with everything. */
  ghost predicate Selects(filter: string, field: string) {
    filter == "*" || Lists(filter, field)
  }

  /** The letters and digits after the last dot of the file name, or "bin". */
  ghost predicate IsExtension(path: Path, extension: string) {
    if path == [] then extension == "bin"
    else
      var name := path[|path| - 1];
      || (extension == "bin" && forall d :: !EndsAfter(name, d))
      || exists d :: EndsAfter(name, d) && IsText(name[d + 1..], extension)
  }

  predicate IsText(s: seq<byte>, text: string) {
    |text| == |s| && forall i :: 0 <= i < |s| ==> text[i] as int == s[i]
  }

  /** The last dot is at `d`, not at the start, and only ASCII letters and digits follow it. */
  predicate EndsAfter(name: Name, d: int) {
    && 0 < d < |name| && name[d] == DOT
    && forall i :: d < i < |name| ==> '0' as int <= name[i] <= '9' as int || 'A' as int <= name[i] <= 'Z' as int
                                      || 'a' as int <= name[i] <= 'z' as int
  }

  lemma {:induction false} TextIs(s: seq<byte>)
    requires forall b :: b in s ==> IsAlphanumeric(b)
    ensures IsText(s, AsciiText(s))
  {
    if s != [] {
      assert s[0] in s;
      TextIs(s[1..]);
    }
  }

  lemma ExtensionMeans(path: Path)
    ensures IsExtension(path, SafeExtension(path))
  {
    if path == [] {
      return;
    }
    var name := path[|path| - 1];
    var dot := LastDot(name, |name|);
    if 0 < dot < |name| {
      var extension := name[dot + 1..];
      if EndsAfter(name, dot) {
        assert forall i :: 0 <= i < |extension| ==> extension[i] == name[dot + 1 + i];
        TextIs(extension);
      } else {
        var i :| dot < i < |name| && !IsAlphanumeric(name[i]);
        assert extension[i - dot - 1] == name[i];
      }
    }
    forall d | EndsAfter(name, d)
      ensures d == dot
    {
      OnlyDot(name, d);
    }
  }

  lemma OnlyDot(name: Name, d: int)
    requires EndsAfter(name, d)
    ensures LastDot(name, |name|) == d
  {
    var dot := LastDot(name, |name|);
    assert dot < |name|;
    assert !('0' as int <= DOT <= '9' as int);
  }

  /** A container is described with the number of entries filed under it if that is selected. */
  lemma ContainerDescribed(e: Entry, c: Snapshot, m: multiset<Entry>, bookmarks: Bookmarks, baseUrl: string,
                           filter: string)
    requires IsCatalogOf(c, m) && e in m && e.kind.Container?
    ensures var o := Describe(e, c, bookmarks, baseUrl, filter);
            && o.ContainerObject? && o.id == e.id && o.parentId == e.parentId && o.title == e.title
            && (o.childCount.Some? <==> Selects(filter, "@childCount"))
            && (o.childCount.Some? ==> exists s :: ListsChildren(s, m, e.id) && |s| == o.childCount.value)
  {
    FilterMeans(filter, "@childCount");
    ChildrenCounted(c, m, e);
    hide IsCatalogOf, FilterHas, Lists, ListsChildren, ChildCount;
  }

  /**
   * An item is described with its bookmark if that is selected and there is one, and with its
   * resource, size included, if that or any attribute of it is selected.
   */
  lemma ItemDescribed(e: Entry, c: Snapshot, bookmarks: Bookmarks, baseUrl: string, filter: string)
    requires e.kind.Media?
    ensures var o := Describe(e, c, bookmarks, baseUrl, filter);
            && o.ItemObject? && o.id == e.id && o.parentId == e.parentId && o.title == e.title
            && o.upnpClass == e.kind.media.upnpClass
            && o.bookmark == (if Selects(filter, "sec:dcmInfo") && e.id in bookmarks then Some(bookmarks[e.id])
                              else None)
            && (o.resource.Some? <==>
                 Selects(filter, "res") || exists field :: "res@" <= field && Lists(filter, field))
            && (o.resource.Some? ==> ResourceOf(o.resource.value, e, baseUrl))
  {
    FilterMeans(filter, "sec:dcmInfo");
    FilterMeans(filter, "res");
    hide FilterHas, Lists, ResourceOf;
    if FilterHas(filter, "res") {
      ResourceDescribed(e, baseUrl, filter);
    }
  }

  /** The type of the file and how it can be streamed, its size, and a link that ends with its extension. */
  ghost predicate ResourceOf(r: Resource, e: Entry, baseUrl: string)
    requires e.kind.Media?
  {
    && r.protocolInfo == "http-get:*:" + e.kind.media.mimeType + ":" + Profile(e.kind.media.dlnaProfile)
         + "DLNA.ORG_OP=01;DLNA.ORG_CI=0;DLNA.ORG_FLAGS=01700000000000000000000000000000"
    && r.size == Some(e.size)
    && exists extension :: IsExtension(e.path, extension) && r.url == baseUrl + "/media/" + e.id + "/file." + extension
  }

  function Profile(profile: Option<string>): string {
    if profile.Some? then "DLNA.ORG_PN=" + profile.value + ";" else ""
  }

  lemma ResourceDescribed(e: Entry, baseUrl: string, filter: string)
    requires e.kind.Media? && FilterHas(filter, "res")
    ensures var r := DescribeResource(e, e.kind.media, baseUrl, filter); r.Some? && ResourceOf(r.value, e, baseUrl)
  {
    ExtensionMeans(e.path);
    hide FilterHas, SafeExtension, IsExtension;
  }

  lemma ChildrenCounted(c: Snapshot, m: multiset<Entry>, e: Entry)
    requires IsCatalogOf(c, m) && e in m && e.kind.Container?
    ensures exists s :: ListsChildren(s, m, e.id) && |s| == ChildCount(c, e.id)
  {
    ChildrenOfScanned(c, m, e.id);
    hide Linked, Rooted, ListsSorted, Fingerprint, Total, ChildrenOf, ChildCount;
    assert ListsChildren(ChildrenOf(c, e.id), m, e.id);
  }

  /** The root is object "0" below "-1", titled "Root", with as many children as there are shares' entries. */
  lemma RootDescribed(c: Snapshot, m: multiset<Entry>, filter: string)
    requires IsCatalogOf(c, m)
    ensures var o := DescribeRoot(c, filter);
            && o.ContainerObject? && o.id == "0" && o.parentId == "-1" && o.title == "Root"
            && (o.childCount.Some? <==> Selects(filter, "@childCount"))
            && (o.childCount.Some? ==> exists s :: ListsChildren(s, m, "0") && |s| == o.childCount.value)
  {
    FilterMeans(filter, "@childCount");
    ChildrenOfScanned(c, m, "0");
    hide Linked, Rooted, ListsSorted, Fingerprint, Total, ChildrenOf, ChildCount, FilterHas, Lists;
    assert HasChildren(c, "0");
    assert ListsChildren(ChildrenOf(c, "0"), m, "0");
  }
}
