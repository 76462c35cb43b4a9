/** The Browse action: selecting, sorting, paging and describing catalog entries. */
module Browse {
  import opened Prelude
  import opened Numbers
  import opened Identity
  import opened Entries
  import opened FileSystem
  import opened Ordering
  import opened CatalogSpec
  import opened Xml
  import opened Didl

  const U32_MAX := U32_COUNT - 1

  type Arguments = map<string, string>
  type Bookmarks = map<string, nat>

  // --- Choosing fields -----------------------------------------------------------------------

  function Split(s: string, separator: char): seq<string> {
    var first := Until(s, separator);
    if |first| == |s| then [first] else [first] + Split(s[|first| + 1..], separator)
  }

  /** `filter_has`: a wildcard, the property itself, or for `res` any of its attributes. */
  predicate FilterHas(filter: string, requested: string) {
    || filter == "*"
    || exists property :: property in Split(filter, ',')
         && (property == requested || (requested == "res" && "res@" <= property))
  }

  function IsAlphanumeric(b: byte): bool {
    0x30 <= b <= 0x39 || 0x41 <= b <= 0x5a || 0x61 <= b <= 0x7a
  }

  function AsciiText(s: seq<byte>): (r: string)
    requires forall b :: b in s ==> IsAlphanumeric(b)
    ensures |r| == |s|
  {
    if s == [] then ""
    else
      assert s[0] in s;
      [s[0] as char] + AsciiText(s[1..])
  }

  /** The file extension if it is alphanumeric ASCII, otherwise `bin`. */
  function SafeExtension(path: Path): string {
    if path == [] then "bin"
    else
      var name := path[|path| - 1];
      var dot := LastDot(name, |name|);
      if dot == 0 || dot == |name| then "bin"
      else
        var extension := name[dot + 1..];
        if forall b :: b in extension ==> IsAlphanumeric(b) then AsciiText(extension) else "bin"
  }

  function ProtocolInfo(mimeType: string, dlnaProfile: Option<string>): string {
    "http-get:*:" + mimeType + ":" + (if dlnaProfile.Some? then "DLNA.ORG_PN=" + dlnaProfile.value + ";" else "")
      + "DLNA.ORG_OP=01;DLNA.ORG_CI=0;DLNA.ORG_FLAGS=01700000000000000000000000000000"
  }

  function ChildCount(c: Snapshot, id: string): nat {
    if id in c.children then |c.children[id]| else 0
  }

  function CountIfAsked(c: Snapshot, id: string, filter: string): Option<nat> {
    if FilterHas(filter, "@childCount") then Some(ChildCount(c, id)) else None
  }

  /** The root container, which is no entry. */
  function DescribeRoot(c: Snapshot, filter: string): Object {
    ContainerObject(ROOT_ID, "-1", "Root", CountIfAsked(c, ROOT_ID, filter))
  }

  function DescribeResource(e: Entry, media: MediaKind, baseUrl: string, filter: string): Option<Resource> {
    var includeSize := FilterHas(filter, "res") || FilterHas(filter, "res@size");
    if !FilterHas(filter, "res") then None
    else
      Some(Resource(ProtocolInfo(media.mimeType, media.dlnaProfile), if includeSize then Some(e.size) else None,
                    baseUrl + "/media/" + e.id + "/file." + SafeExtension(e.path)))
  }

  function Describe(e: Entry, c: Snapshot, bookmarks: Bookmarks, baseUrl: string, filter: string): Object {
    match e.kind
    case Container => ContainerObject(e.id, e.parentId, e.title, CountIfAsked(c, e.id, filter))
    case Media(media) =>
      ItemObject(e.id, e.parentId, e.title, media.upnpClass,
                 if FilterHas(filter, "sec:dcmInfo") && e.id in bookmarks then Some(bookmarks[e.id]) else None,
                 DescribeResource(e, media, baseUrl, filter))
  }

  function DescribeAll(s: seq<Entry>, c: Snapshot, bookmarks: Bookmarks, baseUrl: string,
                       filter: string): (r: seq<Object>)
    ensures |r| == |s|
    ensures forall i :: 0 <= i < |s| ==> r[i] == Describe(s[i], c, bookmarks, baseUrl, filter)
  {
    seq(|s|, i requires 0 <= i < |s| => Describe(s[i], c, bookmarks, baseUrl, filter))
  }

  // --- Selecting entries ---------------------------------------------------------------------

  /** `Catalog::children`: the entries behind a child list, skipping identifiers without one. */
  function ChildEntries(entries: map<string, Entry>, ids: seq<string>): seq<Entry> {
    if ids == [] then []
    else (if ids[0] in entries then [entries[ids[0]]] else []) + ChildEntries(entries, ids[1..])
  }

  /** The requested order: catalog order, by title, or by title in reverse. */
  function Arranged(children: seq<Entry>, descending: Option<bool>): seq<Entry> {
    if descending.None? then children
    else if descending.value then Reverse(Sort(children, TitledBefore))
    else Sort(children, TitledBefore)
  }

  /** `count` entries from `start` on, or all of them when `count` is zero. */
  function Page<T>(s: seq<T>, start: nat, count: nat): seq<T> {
    var tail := if start <= |s| then s[start..] else [];
    if count == 0 || count >= |tail| then tail else tail[..count]
  }

  lemma PageLength<T>(s: seq<T>, start: nat, count: nat)
    ensures |Page(s, start, count)| == if count == 0 then Max(0, |s| - start) else Min(count, Max(0, |s| - start))
  {
  }

  function Pages<T>(s: seq<T>, size: nat, n: nat): seq<T> {
    if n == 0 then [] else Pages(s, size, n - 1) + Page(s, (n - 1) * size, size)
  }

  /** The first `n` pages of a size, put together, are the front of the list. */
  lemma {:induction false} PagesCover<T>(s: seq<T>, size: nat, n: nat)
    requires size >= 1
    ensures Pages(s, size, n) == s[..Min(n * size, |s|)]
    decreases n
  {
    if n > 0 {
      PagesCover(s, size, n - 1);
      OnePageFurther(n, size);
      hide Page;
      PageAfter(s, (n - 1) * size, size);
    }
  }

  lemma OnePageFurther(n: nat, size: nat)
    requires n > 0
    ensures n * size == (n - 1) * size + size
  {
  }

  lemma PageAfter<T>(s: seq<T>, start: nat, size: nat)
    requires size >= 1
    ensures s[..Min(start, |s|)] + Page(s, start, size) == s[..Min(start + size, |s|)]
  {
    if start <= |s| {
      assert Page(s, start, size) == s[start..Min(start + size, |s|)];
    }
  }

  // --- Browse --------------------------------------------------------------------------------

  datatype Answer = Answer(objects: seq<Object>, numberReturned: nat, totalMatches: nat, updateId: u32)

  function Parse32(arguments: Arguments, name: string): Option<nat> {
    if name in arguments then ParseUnsigned(arguments[name], U32_MAX) else None
  }

  /** The order asked for, or `None` when it is not supported. */
  function TitleSort(criteria: string): Option<Option<bool>> {
    if criteria == "" then Some(None)
    else if criteria == "+dc:title" then Some(Some(false))
    else if criteria == "-dc:title" then Some(Some(true))
    else None
  }

  predicate WellFormed(arguments: Arguments) {
    && "ObjectID" in arguments && "BrowseFlag" in arguments
    && Parse32(arguments, "StartingIndex").Some? && Parse32(arguments, "RequestedCount").Some?
    && "SortCriteria" in arguments && "Filter" in arguments
  }

  function ChildrenOf(c: Snapshot, id: string): seq<Entry> {
    if id in c.children then ChildEntries(c.entries, c.children[id]) else []
  }

  /** Whether an object can be browsed for children. */
  predicate HasChildren(c: Snapshot, id: string) {
    (id == ROOT_ID || IsContainer(c.entries, id)) && id in c.children
  }

  /** What Browse answers, or the UPnP error code it fails with. */
  function BrowseAnswer(arguments: Arguments, c: Snapshot, bookmarks: Bookmarks, baseUrl: string): Result<Answer, nat> {
    if !WellFormed(arguments) then Err(402)
    else
      var id, flag, filter := arguments["ObjectID"], arguments["BrowseFlag"], arguments["Filter"];
      var order := TitleSort(arguments["SortCriteria"]);
      if order.None? then Err(709)
      else if flag == "BrowseMetadata" then
        if id == ROOT_ID then Ok(Answer([DescribeRoot(c, filter)], 1, 1, ObjectUpdateId(c, id)))
        else if id !in c.entries then Err(701)
        else Ok(Answer([Describe(c.entries[id], c, bookmarks, baseUrl, filter)], 1, 1, ObjectUpdateId(c, id)))
      else if flag == "BrowseDirectChildren" then
        if !HasChildren(c, id) then Err(701)
        else
          var children := ChildrenOf(c, id);
          var selected := Page(Arranged(children, order.value), Parse32(arguments, "StartingIndex").value,
                               Parse32(arguments, "RequestedCount").value);
          Ok(Answer(DescribeAll(selected, c, bookmarks, baseUrl, filter), |selected|, |children|,
                    ObjectUpdateId(c, id)))
      else Err(402)
  }

  /** The four output arguments of the action. */
  function Output(a: Answer): seq<(string, string)> {
    [("Result", Document(a.objects)), ("NumberReturned", Decimal(a.numberReturned)),
     ("TotalMatches", Decimal(a.totalMatches)), ("UpdateID", Decimal(a.updateId))]
  }

  /** `browse`. */
  method BrowseAction(arguments: Arguments, c: Snapshot, bookmarks: Bookmarks, baseUrl: string)
    returns (r: Result<seq<(string, string)>, nat>)
    ensures var answer := BrowseAnswer(arguments, c, bookmarks, baseUrl);
            r == if answer.Ok? then Ok(Output(answer.value)) else Err(answer.error)
  {
    hide Document, Header, ObjectUpdateId, Sort, Describe, DescribeRoot, Render, FilterHas, ParseUnsigned, Decimal,
         ChildEntries,
         ObjectRope, Flat, TitleSort, Reverse, DescribeAll;
    if "ObjectID" !in arguments {
      return Err(402);
    }
    var objectId := arguments["ObjectID"];
    if "BrowseFlag" !in arguments {
      return Err(402);
    }
    var browseFlag := arguments["BrowseFlag"];
    var startingIndex := Parse32(arguments, "StartingIndex");
    if startingIndex.None? {
      return Err(402);
    }
    var requestedCount := Parse32(arguments, "RequestedCount");
    if requestedCount.None? {
      return Err(402);
    }
    if "SortCriteria" !in arguments {
      return Err(402);
    }
    if "Filter" !in arguments {
      return Err(402);
    }
    var filter := arguments["Filter"];
    var titleSort := TitleSort(arguments["SortCriteria"]);
    if titleSort.None? {
      return Err(709);
    }
    var didl := Header();
    var numberReturned, totalMatches := 1, 1;
    ghost var objects: seq<Object>;
    if browseFlag == "BrowseMetadata" {
      if objectId == ROOT_ID {
        didl := AppendRoot(didl, c, filter);
        objects := [DescribeRoot(c, filter)];
      } else {
        if objectId !in c.entries {
          return Err(701);
        }
        didl := AppendEntry(didl, c.entries[objectId], c, bookmarks, baseUrl, filter);
        objects := [Describe(c.entries[objectId], c, bookmarks, baseUrl, filter)];
      }
      RenderOne(Header(), objects[0]);
    } else if browseFlag == "BrowseDirectChildren" {
      if objectId != ROOT_ID && !IsContainer(c.entries, objectId) {
        return Err(701);
      }
      if objectId !in c.children {
        return Err(701);
      }
      var children := ChildEntries(c.entries, c.children[objectId]);
      totalMatches := |children|;
      if titleSort.value.Some? {
        children := Sort(children, TitledBefore);
        if titleSort.value.value {
          children := Reverse(children);
        }
      }
      var selected := if startingIndex.value <= |children| then children[startingIndex.value..] else [];
      if requestedCount.value != 0 && requestedCount.value < |selected| {
        selected := selected[..requestedCount.value];
      }
      objects := DescribeAll(selected, c, bookmarks, baseUrl, filter);
      didl := AppendEntries(didl, selected, c, bookmarks, baseUrl, filter);
      numberReturned := |selected|;
    } else {
      return Err(402);
    }
    didl := didl + FOOTER;
    DocumentIs(objects);
    var updateId := ObjectUpdateId(c, objectId);
    return Ok([("Result", didl), ("NumberReturned", Decimal(numberReturned)), ("TotalMatches", Decimal(totalMatches)),
               ("UpdateID", Decimal(updateId))]);
  }

  /** The loop over the selected children. */
  method AppendEntries(output: string, selected: seq<Entry>, c: Snapshot, bookmarks: Bookmarks, baseUrl: string,
                       filter: string)
    returns (r: string)
    ensures r + FOOTER == output + Render(DescribeAll(selected, c, bookmarks, baseUrl, filter), FOOTER)
  {
    hide Render, Describe, ObjectRope, Flat;
    ghost var objects := DescribeAll(selected, c, bookmarks, baseUrl, filter);
    r := output;
    assert objects[0..] == objects;
    for i := 0 to |selected|
      invariant r + Render(objects[i..], FOOTER) == output + Render(objects, FOOTER)
    {
      RenderStep(r, objects[i..]);
      assert objects[i..][0] == objects[i] && objects[i..][1..] == objects[i + 1..];
      r := AppendEntry(r, selected[i], c, bookmarks, baseUrl, filter);
    }
    assert objects[|selected|..] == [];
    RenderNone();
  }

  lemma DocumentIs(objects: seq<Object>)
    ensures Document(objects) == Header() + Render(objects, FOOTER)
  {
  }

  lemma RenderNone()
    ensures Render([], FOOTER) == FOOTER
  {
  }

  lemma RenderOne(front: string, o: Object)
    ensures front + Flat(ObjectRope(o), "") + FOOTER == front + Render([o], FOOTER)
  {
    hide ObjectRope;
    FlatAppend(ObjectRope(o), FOOTER);
    assert [o][1..] == [];
    assert front + Flat(ObjectRope(o), "") + FOOTER == front + (Flat(ObjectRope(o), "") + FOOTER);
  }

  lemma RenderStep(front: string, objects: seq<Object>)
    requires objects != []
    ensures front + Flat(ObjectRope(objects[0]), "") + Render(objects[1..], FOOTER) == front + Render(objects, FOOTER)
  {
    hide ObjectRope;
    var rest := Render(objects[1..], FOOTER);
    FlatAppend(ObjectRope(objects[0]), rest);
    assert front + Flat(ObjectRope(objects[0]), "") + rest == front + (Flat(ObjectRope(objects[0]), "") + rest);
  }

  /** `append_root`. */
  method AppendRoot(output: string, c: Snapshot, filter: string) returns (r: string)
    ensures r == output + Flat(ObjectRope(DescribeRoot(c, filter)), "")
  {
    ghost var o := DescribeRoot(c, filter);
    ContainerFlat(o);
    RootNeedsNoEscaping();
    hide FilterHas, Escape, Decimal, Flat, ObjectRope;
    var childCount :=
      if FilterHas(filter, "@childCount") then " childCount=\"" + Decimal(ChildCount(c, ROOT_ID)) + "\"" else "";
    assert childCount == CountText(o.childCount);
    r := output + ((CONTAINER_OPEN + ROOT_ID + PARENT_OPEN + "-1" + RESTRICTED) + childCount
                   + ("><dc:title>" + "Root" + CLASS_OPEN + FOLDER_CLASS + CONTAINER_CLOSE));
  }

  lemma RootNeedsNoEscaping()
    ensures Escape(ROOT_ID) == ROOT_ID && Escape("-1") == "-1" && Escape("Root") == "Root"
  {
    PlainEscapesToItself(ROOT_ID);
    PlainEscapesToItself("-1");
    PlainEscapesToItself("Root");
  }

  /** `append_entry`: the container element, or an item with the fields the filter chooses. */
  method AppendEntry(output: string, e: Entry, c: Snapshot, bookmarks: Bookmarks, baseUrl: string, filter: string)
    returns (r: string)
    ensures r == output + Flat(ObjectRope(Describe(e, c, bookmarks, baseUrl, filter)), "")
  {
    match e.kind {
      case Container =>
        ghost var o := Describe(e, c, bookmarks, baseUrl, filter);
        var id := EscapeText(e.id);
        var parentId := EscapeText(e.parentId);
        var title := EscapeText(e.title);
        ContainerFlat(o);
        hide FilterHas, Escape, Decimal, Flat, ObjectRope, ContainerText;
        var childCount :=
          if FilterHas(filter, "@childCount") then " childCount=\"" + Decimal(ChildCount(c, e.id)) + "\"" else "";
        assert childCount == CountText(o.childCount);
        r := output + ContainerText(id, parentId, childCount, title);
      case Media(media) =>
        r := AppendItem(output, e, media, c, bookmarks, baseUrl, filter);
    }
  }

  /** The writes for a media item: head, bookmark, resource, end. */
  method AppendItem(output: string, e: Entry, media: MediaKind, c: Snapshot, bookmarks: Bookmarks, baseUrl: string,
                    filter: string)
    returns (r: string)
    requires e.kind == Media(media)
    ensures r == output + Flat(ObjectRope(Describe(e, c, bookmarks, baseUrl, filter)), "")
  {
    var id := EscapeText(e.id);
    var parentId := EscapeText(e.parentId);
    var title := EscapeText(e.title);
    ItemFlat(Describe(e, c, bookmarks, baseUrl, filter));
    hide FilterHas, Escape, Decimal, Flat, ObjectRope, ProtocolInfo, ItemText, BookmarkText, ResourceText,
         SafeExtension;
    var includeResource := FilterHas(filter, "res");
    var includeSize := FilterHas(filter, "res") || FilterHas(filter, "res@size");
    r := output + ItemText(id, parentId, title, media.upnpClass);
    ghost var head, middle := r, "";
    if FilterHas(filter, "sec:dcmInfo") && e.id in bookmarks {
      middle := BookmarkText(title, bookmarks[e.id]);
      r := r + BookmarkText(title, bookmarks[e.id]);
    }
    assert r == head + middle;
    ghost var end := "";
    if includeResource {
      var size := if includeSize then " size=\"" + Decimal(e.size) + "\"" else "";
      var protocolInfo := EscapeText(ProtocolInfo(media.mimeType, media.dlnaProfile));
      var url := EscapeText(baseUrl + "/media/" + e.id + "/file." + SafeExtension(e.path));
      end := ResourceText(protocolInfo, size, url);
      r := r + ResourceText(protocolInfo, size, url);
    }
    assert r == head + middle + end;
    r := r + "</item>";
    Assemble(output, ItemText(id, parentId, title, media.upnpClass), middle, end, "</item>");
  }

  lemma Assemble(output: string, a: string, b: string, c: string, d: string)
    ensures output + a + b + c + d == output + (a + b + c + d)
  {
  }
}
